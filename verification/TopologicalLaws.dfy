/** Which of the orders that put dependencies first the walk gives: what is asked for
    is placed one after another, each after its dependencies in the order it lists
    them; and how it enters the cycle it names. */
module TopologicalLaws {
  import opened Seqs
  import opened Wrappers
  import opened Graph
  import opened Topological

  // ------------------------------------------------------------------- one placement

  /** What a placement adds: it goes on from what was placed, after its own
      dependencies, with the node, and never with one on the path. */
  ghost predicate Adds(deps: Next, id: Id, path: seq<Id>, order: seq<Id>, placed: seq<Id>) {
    && order <= placed && DepsBefore(deps, placed) && Distinct(placed) && id in placed
    && (forall x :: x in placed && x !in order ==> Reaches(deps, id, x) && x !in path)
  }

  ghost predicate AddsAll(deps: Next, ids: seq<Id>, path: seq<Id>, order: seq<Id>, placed: seq<Id>) {
    && order <= placed && DepsBefore(deps, placed) && Distinct(placed) && (forall x :: x in ids ==> x in placed)
    && (forall x :: x in placed && x !in order ==> ReachedFrom(deps, ids, x) && x !in path)
  }

  lemma {:induction false} PlaceAdds(deps: Next, nodes: set<Id>, id: Id, path: seq<Id>, order: seq<Id>)
    requires Closed(deps, nodes) && id in nodes && DepsBefore(deps, order) && Distinct(order)
    requires Place(deps, nodes, id, path, order).Ok?
    ensures Adds(deps, id, path, order, Place(deps, nodes, id, path, order).value)
    decreases nodes - (set x | x in path), 0
  {
    if id !in order {
      Shrinks(nodes, path, id);
      PlaceAllAdds(deps, nodes, deps(id), path + [id], order);
      var below := PlaceAll(deps, nodes, deps(id), path + [id], order).value;
      assert id in path + [id];
      DepsBeforeSnoc(deps, below, id);
      BelowReached(deps, id, path, order, below);
    }
  }

  lemma {:induction false} BelowReached(deps: Next, id: Id, path: seq<Id>, order: seq<Id>, below: seq<Id>)
    requires AddsAll(deps, deps(id), path + [id], order, below) && id !in order && id !in path
    requires DepsBefore(deps, below + [id])
    ensures Adds(deps, id, path, order, below + [id])
  {
    var placed := below + [id];
    ReachesSelf(deps, id);
    assert id in path + [id];
    assert id !in below;
    assert Distinct(placed);
    forall x | x in placed && x !in order ensures Reaches(deps, id, x) && x !in path {
      if x != id {
        assert x in below;
        var d :| d in deps(id) && Reaches(deps, d, x);
        ReachesStep(deps, id, id, d);
        ReachesTransitive(deps, id, d, x);
        assert x !in path + [id];
      }
    }
  }

  lemma {:induction false} PlaceAllAdds(deps: Next, nodes: set<Id>, ids: seq<Id>, path: seq<Id>, order: seq<Id>)
    requires Closed(deps, nodes) && (forall x :: x in ids ==> x in nodes) && DepsBefore(deps, order) && Distinct(order)
    requires PlaceAll(deps, nodes, ids, path, order).Ok?
    ensures AddsAll(deps, ids, path, order, PlaceAll(deps, nodes, ids, path, order).value)
    decreases nodes - (set x | x in path), 1 + |ids|
  {
    if ids != [] {
      Unsnoc(ids);
      PlaceAllAdds(deps, nodes, Init(ids), path, order);
      var before := PlaceAll(deps, nodes, Init(ids), path, order).value;
      PlaceAdds(deps, nodes, Last(ids), path, before);
      OneMoreAdded(deps, ids, path, order, before, Place(deps, nodes, Last(ids), path, before).value);
    }
  }

  lemma {:induction false} OneMoreAdded(
      deps: Next, ids: seq<Id>, path: seq<Id>, order: seq<Id>, before: seq<Id>, after: seq<Id>)
    requires ids != [] && AddsAll(deps, Init(ids), path, order, before) && Adds(deps, Last(ids), path, before, after)
    ensures AddsAll(deps, ids, path, order, after)
  {
    Unsnoc(ids);
    forall x | x in ids ensures x in after {
      assert x in Init(ids) ==> x in before;
    }
    forall x | x in after && x !in order ensures ReachedFrom(deps, ids, x) && x !in path {
      if x in before {
        var n :| n in Init(ids) && Reaches(deps, n, x);
        assert n in ids;
      } else {
        assert Last(ids) in ids;
      }
    }
  }

  /** A list with each node's dependencies before it holds all its nodes reach. */
  lemma {:induction false} HoldsReached(deps: Next, order: seq<Id>, x: Id, y: Id)
    requires DepsBefore(deps, order) && x in order && Reaches(deps, x, y)
    ensures y in order
  {
    var p :| IsPath(deps, p, x, y);
    var held := set n | n in order;
    assert Closed(deps, held) by {
      forall v, w | v in held && w in deps(v) ensures w in held {
        var i :| 0 <= i < |order| && order[i] == v;
        assert w in order[..i];
      }
    }
    PathStays(deps, held, p, |p| - 1);
  }

  // -------------------------------------------------------------------- two placements

  /** `s` without what is in `t`. */
  ghost function Fresh(s: seq<Id>, t: seq<Id>): seq<Id>
    decreases |s|
  {
    if s == [] then [] else Fresh(Init(s), t) + if Last(s) in t then [] else [Last(s)]
  }

  lemma {:induction false} FreshConcat(a: seq<Id>, b: seq<Id>, t: seq<Id>)
    ensures Fresh(a + b, t) == Fresh(a, t) + Fresh(b, t)
    decreases |b|
  {
    if b == [] {
      assert a + b == a;
    } else {
      var all, last := a + b, if Last(b) in t then [] else [Last(b)];
      assert Init(all) == a + Init(b) && Last(all) == Last(b);
      FreshConcat(a, Init(b), t);
      Regroup(Fresh(a, t), Fresh(Init(b), t), last);
    }
  }

  lemma {:induction false} FreshSame(s: seq<Id>, t: seq<Id>, u: seq<Id>)
    requires forall x :: x in s ==> (x in t <==> x in u)
    ensures Fresh(s, t) == Fresh(s, u)
    decreases |s|
  {
    if s != [] {
      Unsnoc(s);
      FreshSame(Init(s), t, u);
    }
  }

  lemma {:induction false} FreshNone(s: seq<Id>, t: seq<Id>)
    requires forall x :: x in s ==> x in t
    ensures Fresh(s, t) == []
    decreases |s|
  {
    if s != [] {
      Unsnoc(s);
      FreshNone(Init(s), t);
    }
  }

  lemma {:induction false} FreshAll(s: seq<Id>)
    ensures Fresh(s, []) == s
    decreases |s|
  {
    if s != [] {
      Unsnoc(s);
      FreshAll(Init(s));
    }
  }

  /** What `placed` has after `order`. */
  ghost function Added(order: seq<Id>, placed: seq<Id>): seq<Id>
    requires order <= placed
  {
    placed[|order|..]
  }

  lemma {:induction false} AddedIs(order: seq<Id>, placed: seq<Id>)
    requires order <= placed && Distinct(placed)
    ensures placed == order + Added(order, placed)
    ensures forall x :: x in Added(order, placed) <==> x in placed && x !in order
  {
    assert placed == order + Added(order, placed);
    forall x | x in Added(order, placed) ensures x !in order {
      var i :| |order| <= i < |placed| && placed[i] == x;
      assert forall j :: 0 <= j < |order| ==> order[j] == placed[j] && placed[j] != placed[i];
    }
  }

  lemma {:induction false} AddedAgain(order: seq<Id>, before: seq<Id>, after: seq<Id>)
    requires order <= before <= after
    ensures order <= after && Added(order, after) == Added(order, before) + Added(before, after)
  {
  }

  /** The same node placed into two lists: what is new to both comes in one order. */
  ghost predicate OneOrder(oa: seq<Id>, ra: seq<Id>, ob: seq<Id>, rb: seq<Id>) {
    oa <= ra && ob <= rb && Fresh(Added(oa, ra), ob) == Fresh(Added(ob, rb), oa)
  }

  lemma {:induction false} TwoPlacements(
      deps: Next, nodes: set<Id>, id: Id, pa: seq<Id>, oa: seq<Id>, pb: seq<Id>, ob: seq<Id>)
    requires Closed(deps, nodes) && id in nodes
    requires DepsBefore(deps, oa) && Distinct(oa) && DepsBefore(deps, ob) && Distinct(ob)
    requires Place(deps, nodes, id, pa, oa).Ok? && Place(deps, nodes, id, pb, ob).Ok?
    ensures OneOrder(oa, Place(deps, nodes, id, pa, oa).value, ob, Place(deps, nodes, id, pb, ob).value)
    decreases nodes - (set x | x in pa), 0
  {
    var ra, rb := Place(deps, nodes, id, pa, oa).value, Place(deps, nodes, id, pb, ob).value;
    PlaceAdds(deps, nodes, id, pa, oa);
    PlaceAdds(deps, nodes, id, pb, ob);
    if id in oa {
      AlreadyHeld(deps, id, oa, ob, rb);
      assert Added(oa, ra) == [];
    } else if id in ob {
      AlreadyHeld(deps, id, ob, oa, ra);
      assert Added(ob, rb) == [];
    } else {
      Shrinks(nodes, pa, id);
      TwoLists(deps, nodes, deps(id), pa + [id], oa, pb + [id], ob);
      var ba := PlaceAll(deps, nodes, deps(id), pa + [id], oa).value;
      var bb := PlaceAll(deps, nodes, deps(id), pb + [id], ob).value;
      LastAdded(oa, ba, ob, id);
      LastAdded(ob, bb, oa, id);
    }
  }

  lemma {:induction false} LastAdded(order: seq<Id>, below: seq<Id>, other: seq<Id>, id: Id)
    requires order <= below && id !in other
    ensures order <= below + [id]
    ensures Fresh(Added(order, below + [id]), other) == Fresh(Added(order, below), other) + [id]
  {
    assert Added(order, below + [id]) == Added(order, below) + [id];
    Snoc(Added(order, below), id);
  }

  /** A list that holds the node holds all that placing it elsewhere adds. */
  lemma {:induction false} AlreadyHeld(deps: Next, id: Id, held: seq<Id>, order: seq<Id>, placed: seq<Id>)
    requires DepsBefore(deps, held) && id in held && order <= placed && Distinct(placed)
    requires forall x :: x in placed && x !in order ==> Reaches(deps, id, x)
    ensures Fresh(Added(order, placed), held) == []
  {
    AddedIs(order, placed);
    forall x | x in Added(order, placed) ensures x in held {
      HoldsReached(deps, held, id, x);
    }
    FreshNone(Added(order, placed), held);
  }

  lemma {:induction false} TwoLists(
      deps: Next, nodes: set<Id>, ids: seq<Id>, pa: seq<Id>, oa: seq<Id>, pb: seq<Id>, ob: seq<Id>)
    requires Closed(deps, nodes) && forall x :: x in ids ==> x in nodes
    requires DepsBefore(deps, oa) && Distinct(oa) && DepsBefore(deps, ob) && Distinct(ob)
    requires PlaceAll(deps, nodes, ids, pa, oa).Ok? && PlaceAll(deps, nodes, ids, pb, ob).Ok?
    ensures OneOrder(oa, PlaceAll(deps, nodes, ids, pa, oa).value, ob, PlaceAll(deps, nodes, ids, pb, ob).value)
    decreases nodes - (set x | x in pa), 1 + |ids|
  {
    if ids != [] {
      Unsnoc(ids);
      var first, id := Init(ids), Last(ids);
      TwoLists(deps, nodes, first, pa, oa, pb, ob);
      PlaceAllAdds(deps, nodes, first, pa, oa);
      PlaceAllAdds(deps, nodes, first, pb, ob);
      var ba, bb := PlaceAll(deps, nodes, first, pa, oa).value, PlaceAll(deps, nodes, first, pb, ob).value;
      TwoPlacements(deps, nodes, id, pa, ba, pb, bb);
      PlaceAdds(deps, nodes, id, pa, ba);
      PlaceAdds(deps, nodes, id, pb, bb);
      var ra, rb := Place(deps, nodes, id, pa, ba).value, Place(deps, nodes, id, pb, bb).value;
      SameApart(deps, first, ob, bb, ba, ra);
      SameApart(deps, first, oa, ba, bb, rb);
      OneAfterOther(oa, ba, ra, ob, bb, rb);
    }
  }

  /** What was placed on one side for the first nodes is placed on the other, so that
      what comes later is as new to one list as to what it became. */
  lemma {:induction false} SameApart(
      deps: Next, first: seq<Id>, other: seq<Id>, became: seq<Id>, before: seq<Id>, after: seq<Id>)
    requires DepsBefore(deps, before) && (forall x :: x in first ==> x in before) && before <= after && Distinct(after)
    requires other <= became && forall x :: x in became && x !in other ==> ReachedFrom(deps, first, x)
    ensures Fresh(Added(before, after), became) == Fresh(Added(before, after), other)
  {
    AddedIs(before, after);
    forall x | x in Added(before, after) ensures x in became <==> x in other {
      if x in became && x !in other {
        var n :| n in first && Reaches(deps, n, x);
        HoldsReached(deps, before, n, x);
      }
    }
    FreshSame(Added(before, after), became, other);
  }

  lemma {:induction false} OneAfterOther(oa: seq<Id>, ba: seq<Id>, ra: seq<Id>, ob: seq<Id>, bb: seq<Id>, rb: seq<Id>)
    requires OneOrder(oa, ba, ob, bb) && OneOrder(ba, ra, bb, rb)
    requires Fresh(Added(ba, ra), bb) == Fresh(Added(ba, ra), ob)
    requires Fresh(Added(bb, rb), ba) == Fresh(Added(bb, rb), oa)
    ensures OneOrder(oa, ra, ob, rb)
  {
    AddedAgain(oa, ba, ra);
    AddedAgain(ob, bb, rb);
    FreshConcat(Added(oa, ba), Added(ba, ra), ob);
    FreshConcat(Added(ob, bb), Added(bb, rb), oa);
  }

  // ------------------------------------------------------------------------ the cycle

  /** A path without repeats leads from `first` into the cycle and round it. */
  ghost predicate Enters(deps: Next, first: Id, cycle: seq<Id>) {
    IsCycle(deps, cycle) && exists way: seq<Id> :: EntersBy(deps, first, cycle, way)
  }

  ghost predicate EntersBy(deps: Next, first: Id, cycle: seq<Id>, way: seq<Id>) {
    cycle != [] && Linked(deps, way + cycle) && Distinct(way + Init(cycle)) && (way + cycle)[0] == first
  }

  lemma {:induction false} PlaceEnters(deps: Next, nodes: set<Id>, id: Id, path: seq<Id>, order: seq<Id>)
    requires Closed(deps, nodes) && id in nodes && Distinct(path) && Linked(deps, path + [id])
    requires Place(deps, nodes, id, path, order).Err?
    ensures Enters(deps, (path + [id])[0], Place(deps, nodes, id, path, order).error)
    decreases nodes - (set x | x in path), 0
  {
    if id in path {
      var i := IndexOf(path, id);
      var cycle := path[i..] + [id];
      assert Linked(deps, path) by {
        forall k | 0 <= k < |path| - 1 ensures path[k + 1] in deps(path[k]) {
          assert (path + [id])[k] == path[k] && (path + [id])[k + 1] == path[k + 1];
        }
      }
      assert (path + [id])[|path|] == id && (path + [id])[|path| - 1] == Last(path);
      CycleCloses(deps, path, i, id);
      assert path[..i] + cycle == path + [id];
      assert Init(cycle) == path[i..] && path[..i] + path[i..] == path;
      assert EntersBy(deps, (path + [id])[0], cycle, path[..i]);
    } else {
      Shrinks(nodes, path, id);
      PlaceAllEnters(deps, nodes, deps(id), path + [id], order);
    }
  }

  lemma {:induction false} PlaceAllEnters(deps: Next, nodes: set<Id>, ids: seq<Id>, path: seq<Id>, order: seq<Id>)
    requires Closed(deps, nodes) && (forall x :: x in ids ==> x in nodes) && Distinct(path) && Linked(deps, path)
    requires path != [] ==> forall x :: x in ids ==> x in deps(Last(path))
    requires PlaceAll(deps, nodes, ids, path, order).Err?
    ensures exists n :: n in ids && Enters(deps, (path + [n])[0], PlaceAll(deps, nodes, ids, path, order).error)
    decreases nodes - (set x | x in path), 1 + |ids|
  {
    Unsnoc(ids);
    if PlaceAll(deps, nodes, Init(ids), path, order).Err? {
      PlaceAllEnters(deps, nodes, Init(ids), path, order);
      var n :| n in Init(ids) && Enters(deps, (path + [n])[0], PlaceAll(deps, nodes, Init(ids), path, order).error);
      assert n in ids;
    } else {
      var id := Last(ids);
      assert id in ids;
      assert Linked(deps, path + [id]) by {
        forall k | 0 <= k < |path| ensures (path + [id])[k + 1] in deps((path + [id])[k]) {
        }
      }
      PlaceEnters(deps, nodes, id, path, PlaceAll(deps, nodes, Init(ids), path, order).value);
    }
  }

  lemma {:induction false} EnteredIsReached(deps: Next, inputs: seq<Id>, first: Id, cycle: seq<Id>)
    requires first in inputs && Enters(deps, first, cycle)
    ensures ReachableCycle(deps, inputs, cycle)
  {
    var way :| EntersBy(deps, first, cycle, way);
    var p := way + [cycle[0]];
    assert p == (way + cycle)[..|way| + 1];
    assert IsPath(deps, p, first, cycle[0]);
  }

  /** The cycle named is entered from what was asked for by a path that does not meet
      itself before it closes it. */
  lemma {:induction false} CycleEntered(deps: Next, nodes: set<Id>, inputs: seq<Id>)
    requires Closed(deps, nodes) && (forall x :: x in inputs ==> x in nodes)
    requires PlaceAll(deps, nodes, inputs, [], []).Err?
    ensures exists n :: n in inputs && Enters(deps, n, PlaceAll(deps, nodes, inputs, [], []).error)
  {
    PlaceAllEnters(deps, nodes, inputs, [], []);
    var n :| n in inputs && Enters(deps, ([] + [n])[0], PlaceAll(deps, nodes, inputs, [], []).error);
  }

  // ---------------------------------------------------------------------- the order

  ghost predicate NoCycleFrom(deps: Next, inputs: seq<Id>) {
    forall c :: !ReachableCycle(deps, inputs, c)
  }

  lemma {:induction false} PlacesAll(deps: Next, nodes: set<Id>, ids: seq<Id>, path: seq<Id>, from: Id)
    requires Closed(deps, nodes) && (forall x :: x in ids ==> x in nodes) && Distinct(path) && Linked(deps, path)
    requires path != [] ==> forall x :: x in ids ==> x in deps(Last(path))
    requires if path == [] then NoCycleFrom(deps, ids) else path == [from] && NoCycleFrom(deps, [from])
    ensures PlaceAll(deps, nodes, ids, path, []).Ok?
  {
    if PlaceAll(deps, nodes, ids, path, []).Err? {
      PlaceAllEnters(deps, nodes, ids, path, []);
      var c := PlaceAll(deps, nodes, ids, path, []).error;
      var n :| n in ids && Enters(deps, (path + [n])[0], c);
      if path == [] {
        EnteredIsReached(deps, ids, n, c);
      } else {
        EnteredIsReached(deps, [from], from, c);
      }
    }
  }

  /** Nothing to order is the empty order. */
  lemma {:induction false} NothingFirst(deps: Next, nodes: set<Id>)
    requires Closed(deps, nodes)
    ensures PlaceAll(deps, nodes, [], [], []) == Ok([])
  {
  }

  /** A node alone comes after the order of its dependencies. */
  lemma {:induction false} DependenciesFirst(deps: Next, nodes: set<Id>, n: Id)
    requires Closed(deps, nodes) && n in nodes && NoCycleFrom(deps, [n])
    ensures PlaceAll(deps, nodes, deps(n), [], []).Ok?
    ensures PlaceAll(deps, nodes, [n], [], []) == Ok(PlaceAll(deps, nodes, deps(n), [], []).value + [n])
  {
    NoneBelow(deps, n);
    PlacesAll(deps, nodes, deps(n), [], n);
    PlacesAll(deps, nodes, deps(n), [n], n);
    TwoLists(deps, nodes, deps(n), [n], [], [], []);
    var a, b := PlaceAll(deps, nodes, deps(n), [n], []).value, PlaceAll(deps, nodes, deps(n), [], []).value;
    FreshAll(a);
    FreshAll(b);
    assert Added([], a) == a && Added([], b) == b;
    PlaceOne(deps, nodes, n, []);
    assert [] + [n] == [n];
  }

  lemma {:induction false} PlaceOne(deps: Next, nodes: set<Id>, n: Id, order: seq<Id>)
    requires Closed(deps, nodes) && n in nodes
    ensures PlaceAll(deps, nodes, [n], [], order) == Place(deps, nodes, n, [], order)
  {
    assert Init([n]) == [];
  }

  lemma {:induction false} NoneBelow(deps: Next, n: Id)
    requires NoCycleFrom(deps, [n])
    ensures NoCycleFrom(deps, deps(n))
  {
    forall c ensures !ReachableCycle(deps, deps(n), c) {
      if ReachableCycle(deps, deps(n), c) {
        ReachableBelow(deps, n, c);
      }
    }
  }

  lemma {:induction false} ReachableBelow(deps: Next, n: Id, c: seq<Id>)
    requires ReachableCycle(deps, deps(n), c)
    ensures ReachableCycle(deps, [n], c)
  {
    var d :| d in deps(n) && Reaches(deps, d, c[0]);
    ReachesSelf(deps, n);
    ReachesStep(deps, n, n, d);
    ReachesTransitive(deps, n, d, c[0]);
    assert n in [n];
  }

  /** What is asked for is placed one after another: each next node brings its own
      order, less what is there already. */
  lemma {:induction false} OneByOne(deps: Next, nodes: set<Id>, ids: seq<Id>, n: Id)
    requires Closed(deps, nodes) && (forall x :: x in ids + [n] ==> x in nodes) && NoCycleFrom(deps, ids + [n])
    ensures n in nodes && forall x :: x in ids ==> x in nodes
    ensures PlaceAll(deps, nodes, ids, [], []).Ok? && PlaceAll(deps, nodes, [n], [], []).Ok?
    ensures var before, alone := PlaceAll(deps, nodes, ids, [], []).value, PlaceAll(deps, nodes, [n], [], []).value;
            PlaceAll(deps, nodes, ids + [n], [], []) == Ok(before + Fresh(alone, before))
  {
    var all := ids + [n];
    assert n in all && forall x :: x in ids ==> x in all;
    Snoc(ids, n);
    FewerInputs(deps, all, ids);
    FewerInputs(deps, all, [n]);
    PlacesAll(deps, nodes, all, [], n);
    PlacesAll(deps, nodes, ids, [], n);
    PlacesAll(deps, nodes, [n], [], n);
    var before := PlaceAll(deps, nodes, ids, [], []).value;
    PlaceAllAdds(deps, nodes, ids, [], []);
    PlaceOne(deps, nodes, n, []);
    TwoPlacements(deps, nodes, n, [], before, [], []);
    PlaceAdds(deps, nodes, n, [], before);
    var alone, after := Place(deps, nodes, n, [], []).value, Place(deps, nodes, n, [], before).value;
    FreshAll(Added(before, after));
    AddedIs(before, after);
    assert Added([], alone) == alone;
  }

  lemma {:induction false} FewerInputs(deps: Next, all: seq<Id>, some: seq<Id>)
    requires NoCycleFrom(deps, all) && forall x :: x in some ==> x in all
    ensures NoCycleFrom(deps, some)
  {
    forall c ensures !ReachableCycle(deps, some, c) {
      assert ReachableCycle(deps, some, c) ==> ReachableCycle(deps, all, c);
    }
  }
}
