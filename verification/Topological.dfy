/** Dependencies before dependents, by a depth-first walk that names the first
    cycle it meets. */
module Topological {
  import opened Seqs
  import opened Wrappers
  import opened Graph

  datatype Mark = Visiting | Done

  /** Every dependency of a listed node is listed before it. */
  ghost predicate DepsBefore(deps: Next, order: seq<Id>) {
    forall i, d :: 0 <= i < |order| && d in deps(order[i]) ==> d in order[..i]
  }

  /** Everything that reaches all of `xs` reaches `y`. */
  ghost predicate ReachedThrough(deps: Next, xs: seq<Id>, y: Id) {
    forall r :: (forall x :: x in xs ==> Reaches(deps, r, x)) ==> Reaches(deps, r, y)
  }

  // ---------------------------------------------------------- what the walk computes

  /** Where `x` is in `s`. */
  ghost function IndexOf(s: seq<Id>, x: Id): (i: nat)
    requires x in s
    ensures i < |s| && s[i] == x && x !in s[..i]
  {
    if s[0] == x then 0
    else
      assert s == [s[0]] + s[1..];
      var i := IndexOf(s[1..], x);
      assert s[..i + 1] == [s[0]] + s[1..][..i];
      i + 1
  }

  /** `order` with `id` placed after all it depends on, or the cycle that `path` and
      what is below it close. */
  ghost function Place(deps: Next, nodes: set<Id>, id: Id, path: seq<Id>, order: seq<Id>): Result<seq<Id>, seq<Id>>
    requires Closed(deps, nodes) && id in nodes
    decreases nodes - (set x | x in path), 0
  {
    if id in order then Ok(order)
    else if id in path then Err(path[IndexOf(path, id)..] + [id])
    else
      Shrinks(nodes, path, id);
      match PlaceAll(deps, nodes, deps(id), path + [id], order)
      case Err(cycle) => Err(cycle)
      case Ok(placed) => Ok(placed + [id])
  }

  /** One after another. */
  ghost function PlaceAll(
      deps: Next, nodes: set<Id>, ids: seq<Id>, path: seq<Id>, order: seq<Id>)
    : Result<seq<Id>, seq<Id>>
    requires Closed(deps, nodes) && forall x :: x in ids ==> x in nodes
    decreases nodes - (set x | x in path), 1 + |ids|
  {
    if ids == [] then Ok(order)
    else
      Unsnoc(ids);
      match PlaceAll(deps, nodes, Init(ids), path, order)
      case Err(cycle) => Err(cycle)
      case Ok(placed) => Place(deps, nodes, Last(ids), path, placed)
  }

  lemma {:induction false} Shrinks(nodes: set<Id>, path: seq<Id>, id: Id)
    requires id in nodes && id !in path
    ensures nodes - (set x | x in path + [id]) < nodes - (set x | x in path)
  {
    assert id in nodes - (set x | x in path);
    assert id in path + [id];
  }

  /** A cycle met part of the way is the whole list's. */
  lemma {:induction false} PlaceAllFails(
      deps: Next, nodes: set<Id>, ids: seq<Id>, path: seq<Id>, order: seq<Id>, i: nat)
    requires Closed(deps, nodes) && (forall x :: x in ids ==> x in nodes) && i <= |ids|
    requires PlaceAll(deps, nodes, ids[..i], path, order).Err?
    ensures PlaceAll(deps, nodes, ids, path, order) == PlaceAll(deps, nodes, ids[..i], path, order)
    decreases |ids|
  {
    if i == |ids| {
      assert ids[..i] == ids;
    } else {
      assert Init(ids)[..i] == ids[..i];
      PlaceAllFails(deps, nodes, Init(ids), path, order, i);
    }
  }

  class Walk {
    const deps: Next
    ghost const nodes: set<Id>
    var marks: map<Id, Mark>
    var path: seq<Id>
    var order: seq<Id>

    constructor (deps: Next, ghost nodes: set<Id>)
      requires Closed(deps, nodes)
      ensures Valid() && this.deps == deps && this.nodes == nodes && marks == map[] && path == [] && order == []
    {
      this.deps := deps;
      this.nodes := nodes;
      marks := map[];
      path := [];
      order := [];
    }

    /** Nodes marked Visiting are exactly the current path, and nodes marked
        Done are exactly those placed. */
    ghost predicate Valid()
      reads this
    {
      && Closed(deps, nodes) && marks.Keys <= nodes
      && Distinct(path) && Distinct(order) && Linked(deps, path)
      && (forall x :: x in path <==> x in marks && marks[x] == Visiting)
      && (forall x :: x in order <==> x in marks && marks[x] == Done)
      && DepsBefore(deps, order)
    }

    /** Mark a node as being visited, at the end of the path. */
    method Enter(id: Id)
      requires Valid() && id in nodes && id !in marks && (path != [] ==> id in deps(Last(path)))
      modifies this
      ensures Valid() && path == old(path) + [id] && order == old(order) && marks.Keys == old(marks.Keys) + {id}
    {
      marks := marks[id := Visiting];
      path := path + [id];
    }

    /** Place the last node of the path, once its dependencies are placed. */
    method Leave(id: Id)
      requires Valid() && path != [] && Last(path) == id && forall d :: d in deps(id) ==> d in order
      modifies this
      ensures Valid() && path == Init(old(path)) && order == old(order) + [id] && marks.Keys == old(marks.Keys)
    {
      Unsnoc(path);
      assert id in path && id !in order;
      path := Init(path);
      marks := marks[id := Done];
      DepsBeforeSnoc(deps, order, id);
      order := order + [id];
      forall x ensures x in path <==> x in marks && marks[x] == Visiting {
        assert x in old(path) <==> x in path || x == id;
      }
    }

    method Visit(id: Id) returns (r: Result<(), seq<Id>>)
      requires Valid() && id in nodes && (path != [] ==> id in deps(Last(path)))
      modifies this
      ensures r.Ok? ==> Valid() && path == old(path) && id in order
      ensures r.Ok? ==> old(order) <= order && old(marks.Keys) <= marks.Keys
      ensures r.Ok? ==> forall x :: x in order && x !in old(order) ==> Reaches(deps, id, x)
      ensures r.Err? ==> IsCycle(deps, r.error) && ReachedThrough(deps, old(path) + [id], r.error[0])
      ensures match Place(deps, nodes, id, old(path), old(order))
              case Ok(placed) => r.Ok? && order == placed
              case Err(cycle) => r == Err(cycle)
      decreases nodes - marks.Keys, 0
    {
      if id in marks {
        match marks[id]
        case Done =>
          return Ok(());
        case Visiting =>
          var start := Position(path, id);
          CycleCloses(deps, path, start, id);
          assert start == IndexOf(path, id);
          return Err(path[start..] + [id]);
      }
      Enter(id);
      r := VisitEach(deps(id));
      if r.Err? {
        ThroughDependency(deps, old(path), id, r.error[0]);
        return;
      }
      ReachedBelow(deps, id, old(order), order);
      Leave(id);
    }

    /** Visit one after another. */
    method VisitEach(ids: seq<Id>) returns (r: Result<(), seq<Id>>)
      requires Valid() && forall x :: x in ids ==> x in nodes && (path != [] ==> x in deps(Last(path)))
      modifies this
      ensures r.Ok? ==> Valid() && path == old(path) && forall x :: x in ids ==> x in order
      ensures r.Ok? ==> old(order) <= order && old(marks.Keys) <= marks.Keys
      ensures r.Ok? ==> NewReached(deps, ids, old(order), order)
      ensures r.Err? ==> IsCycle(deps, r.error) && ReachedThroughOne(deps, old(path), ids, r.error[0])
      ensures match PlaceAll(deps, nodes, ids, old(path), old(order))
              case Ok(placed) => r.Ok? && order == placed
              case Err(cycle) => r == Err(cycle)
      decreases nodes - marks.Keys, 1
    {
      for i := 0 to |ids|
        invariant Valid() && path == old(path)
        invariant old(order) <= order && old(marks.Keys) <= marks.Keys
        invariant NewReached(deps, ids, old(order), order)
        invariant forall d :: d in ids[..i] ==> d in order
        invariant PlaceAll(deps, nodes, ids[..i], path, old(order)) == Ok(order)
      {
        assert Init(ids[..i + 1]) == ids[..i] && ids[i] in ids;
        ghost var before := order;
        r := Visit(ids[i]);
        if r.Err? {
          PlaceAllFails(deps, nodes, ids, old(path), old(order), i + 1);
          return;
        }
        MoreReached(deps, ids, ids[i], old(order), before, order);
        assert ids[..i + 1] == ids[..i] + [ids[i]];
      }
      assert ids[..|ids|] == ids;
      r := Ok(());
    }
  }

  lemma {:induction false} DepsBeforeSnoc(deps: Next, order: seq<Id>, id: Id)
    requires DepsBefore(deps, order) && forall d :: d in deps(id) ==> d in order
    ensures DepsBefore(deps, order + [id])
  {
    var longer := order + [id];
    forall i, d | 0 <= i < |longer| && d in deps(longer[i]) ensures d in longer[..i] {
      assert longer[..i] == order[..i];
    }
  }

  /** What a dependency's visit placed is reachable from the dependent. */
  lemma {:induction false} ReachedBelow(deps: Next, id: Id, before: seq<Id>, after: seq<Id>)
    requires NewReached(deps, deps(id), before, after)
    ensures forall x :: x in after && x !in before ==> Reaches(deps, id, x)
    ensures Reaches(deps, id, id)
  {
    ReachesSelf(deps, id);
    forall x | x in after && x !in before ensures Reaches(deps, id, x) {
      var d :| d in deps(id) && Reaches(deps, d, x);
      ReachesStep(deps, id, id, d);
      ReachesTransitive(deps, id, d, x);
    }
  }

  method Position(s: seq<Id>, x: Id) returns (i: nat)
    requires x in s
    ensures i < |s| && s[i] == x && x !in s[..i]
  {
    i := 0;
    while s[i] != x
      invariant i < |s| && x !in s[..i]
      decreases |s| - i
    {
      assert s[..i + 1] == s[..i] + [s[i]];
      i := i + 1;
    }
  }

  lemma {:induction false} CycleCloses(deps: Next, path: seq<Id>, start: nat, id: Id)
    requires start < |path| && path[start] == id && Linked(deps, path) && id in deps(Last(path))
    ensures IsCycle(deps, path[start..] + [id])
  {
    var c := path[start..] + [id];
    forall i | 0 <= i < |c| - 1 ensures c[i + 1] in deps(c[i]) {
      assert c[i] == path[start + i];
      if start + i + 1 < |path| {
        assert c[i + 1] == path[start + i + 1];
      }
    }
  }

  ghost predicate ReachedThroughOne(deps: Next, path: seq<Id>, ids: seq<Id>, y: Id) {
    exists k :: 0 <= k < |ids| && ReachedThrough(deps, path + [ids[k]], y)
  }

  lemma {:induction false} ThroughDependency(deps: Next, path: seq<Id>, id: Id, y: Id)
    requires ReachedThroughOne(deps, path + [id], deps(id), y)
    ensures ReachedThrough(deps, path + [id], y)
  {
    var k :| 0 <= k < |deps(id)| && ReachedThrough(deps, path + [id] + [deps(id)[k]], y);
    forall r | forall x :: x in path + [id] ==> Reaches(deps, r, x) ensures Reaches(deps, r, y) {
      assert id in path + [id];
      ReachesStep(deps, r, id, deps(id)[k]);
    }
  }

  /** All that is new in the order is reached from these. */
  ghost predicate NewReached(deps: Next, ids: seq<Id>, before: seq<Id>, after: seq<Id>) {
    forall x :: x in after && x !in before ==> ReachedFrom(deps, ids, x)
  }

  lemma {:induction false} MoreReached(
      deps: Next, ids: seq<Id>, id: Id, start: seq<Id>, before: seq<Id>, after: seq<Id>)
    requires id in ids && NewReached(deps, ids, start, before)
    requires forall x :: x in after && x !in before ==> Reaches(deps, id, x)
    ensures NewReached(deps, ids, start, after)
  {
  }

  /** Something in `inputs` leads to `x`. */
  ghost predicate ReachedFrom(deps: Next, inputs: seq<Id>, x: Id) {
    exists n :: n in inputs && Reaches(deps, n, x)
  }

  ghost predicate ReachableCycle(deps: Next, inputs: seq<Id>, cycle: seq<Id>) {
    IsCycle(deps, cycle) && ReachedFrom(deps, inputs, cycle[0])
  }

  lemma {:induction false} CycleFromInput(deps: Next, inputs: seq<Id>, id: Id, cycle: seq<Id>)
    requires id in inputs && IsCycle(deps, cycle) && ReachedThrough(deps, [id], cycle[0])
    ensures ReachableCycle(deps, inputs, cycle)
  {
    ReachesSelf(deps, id);
    assert Reaches(deps, id, cycle[0]);
  }

  method TopologicalOrder(inputs: seq<Id>, deps: Next, ghost nodes: set<Id>) returns (r: Result<seq<Id>, seq<Id>>)
    requires Closed(deps, nodes) && forall x :: x in inputs ==> x in nodes
    ensures r.Ok? ==> Distinct(r.value) && DepsBefore(deps, r.value)
    ensures r.Ok? ==> forall x :: x in r.value <==> ReachedFrom(deps, inputs, x)
    ensures r.Err? ==> ReachableCycle(deps, inputs, r.error)
    ensures r.Ok? <==> forall c :: !ReachableCycle(deps, inputs, c)
    ensures r == PlaceAll(deps, nodes, inputs, [], [])
  {
    var walk := new Walk(deps, nodes);
    var visit := walk.VisitEach(inputs);
    if visit.Err? {
      ghost var k :| 0 <= k < |inputs| && ReachedThrough(deps, [] + [inputs[k]], visit.error[0]);
      assert [] + [inputs[k]] == [inputs[k]] && inputs[k] in inputs;
      CycleFromInput(deps, inputs, inputs[k], visit.error);
      return Err(visit.error);
    }
    OrderHoldsReachable(deps, inputs, walk.order);
    NoCycleInOrder(deps, inputs, walk.order);
    r := Ok(walk.order);
  }

  /** An order that holds the inputs holds all they reach. */
  lemma {:induction false} OrderHoldsReachable(deps: Next, inputs: seq<Id>, order: seq<Id>)
    requires DepsBefore(deps, order) && forall n :: n in inputs ==> n in order
    ensures forall x :: ReachedFrom(deps, inputs, x) ==> x in order
  {
    var held := set x | x in order;
    forall v, w | v in held && w in deps(v) ensures w in held {
      var i :| 0 <= i < |order| && order[i] == v;
      assert w in order[..i];
    }
    forall x | ReachedFrom(deps, inputs, x) ensures x in order {
      var n :| n in inputs && Reaches(deps, n, x);
      var p :| IsPath(deps, p, n, x);
      PathStays(deps, held, p, |p| - 1);
    }
  }

  /** Along edges, places in the order go down. */
  lemma {:induction false} PlacesGoDown(deps: Next, order: seq<Id>, c: seq<Id>, at: nat, k: nat) returns (place: nat)
    requires DepsBefore(deps, order) && Linked(deps, c) && c != [] && at < |order| && order[at] == c[0] && k < |c|
    ensures place < |order| && order[place] == c[k] && place + k <= at
  {
    place := at;
    if k > 0 {
      var p := PlacesGoDown(deps, order, c, at, k - 1);
      assert c[k - 1 + 1] in deps(order[p]);
      place :| 0 <= place < p && order[place] == c[k];
    }
  }

  /** So no cycle can be placed. */
  lemma {:induction false} NoCycleInOrder(deps: Next, inputs: seq<Id>, order: seq<Id>)
    requires DepsBefore(deps, order) && Distinct(order)
    requires forall x :: ReachedFrom(deps, inputs, x) ==> x in order
    ensures forall c :: !ReachableCycle(deps, inputs, c)
  {
    forall c ensures !ReachableCycle(deps, inputs, c) {
      if ReachableCycle(deps, inputs, c) {
        var at :| 0 <= at < |order| && order[at] == c[0];
        var place := PlacesGoDown(deps, order, c, at, |c| - 1);
      }
    }
  }
}
