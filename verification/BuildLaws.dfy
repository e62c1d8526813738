/** What builds keep: a rebuild publishes nothing, a change revises only what
    carries it, and a name's genesis never moves. */
module BuildLaws {
  import opened Hashing
  import opened Seqs
  import opened Ordering
  import opened Wrappers
  import opened Graph
  import opened Topological
  import opened Build

  // ----------------------------------------------------------------- dependencies

  function TargetNames(t: Target): set<Id> {
    if t.Named? then {t.id} else {}
  }

  function SlotNames(slot: Slot): set<Id> {
    match slot
    case ObjectBound(t) => TargetNames(t)
    case LineageBound(t) => TargetNames(t)
    case Tracking(t, at) => TargetNames(t) + if at.Some? then TargetNames(at.value) else {}
  }

  /** Every name a node refers to. */
  function NamesIn(slots: seq<Slot>): (r: set<Id>)
    ensures forall i :: 0 <= i < |slots| ==> SlotNames(slots[i]) <= r
    decreases |slots|
  {
    if slots == [] then {} else NamesIn(Init(slots)) + SlotNames(Last(slots))
  }

  function Dependencies(nodes: Nodes): Next {
    id => if id in nodes then Listing(NamesIn(nodes[id].slots)) else []
  }

  /** Each node once, after all it refers to. */
  ghost predicate OrderFor(nodes: Nodes, order: seq<Id>) {
    Distinct(order) && DepsBefore(Dependencies(nodes), order) && forall id :: id in order <==> id in nodes
  }

  lemma {:induction false} PrefixOrdered(nodes: Nodes, order: seq<Id>)
    requires order != [] && Distinct(order) && DepsBefore(Dependencies(nodes), order)
    ensures Distinct(Init(order)) && DepsBefore(Dependencies(nodes), Init(order))
    ensures forall d :: d in Dependencies(nodes)(Last(order)) ==> d in Init(order)
    ensures Last(order) !in Init(order)
  {
    var deps, init := Dependencies(nodes), Init(order);
    forall i, d | 0 <= i < |init| && d in deps(init[i]) ensures d in init[..i] {
      assert init[i] == order[i] && init[..i] == order[..i];
    }
    assert order[..|order| - 1] == init;
  }

  function LockOf(names: Names): Lock {
    map id | id in names :: LockEntry(Some(names[id].cid), Some(names[id].genesis))
  }

  datatype Built = Built(graph: Held, pending: seq<Cid>, owned: seq<(Cid, Id)>, report: seq<Report>, lock: Lock)

  ghost predicate BuildsInto(env: Env, nodes: Nodes, order: seq<Id>, graph: Held, built: Built) {
    && OrderFor(nodes, order)
    && Steps(env, nodes, order, Start(graph)).Ok?
    && var s := Steps(env, nodes, order, Start(graph)).value;
    && env.valid(s.graph) && built == Built(s.graph, s.pending, s.owned, s.report, LockOf(s.names))
  }

  // ----------------------------------------------------------------------- a step

  ghost predicate Grows(a: Held, b: Held) {
    forall c :: c in a.objects ==> c in b.objects && b.objects[c] == a.objects[c]
  }

  /** No other object is held under this one's identifier. */
  ghost predicate Alone(env: Env, o: Object, g: Held) {
    env.identify(o) in g.objects ==> g.objects[env.identify(o)] == o
  }

  lemma {:induction false} OfferGrows(env: Env, o: Object, id: Id, s: State)
    requires Offer(env, o, id, s).Ok?
    ensures var t := Offer(env, o, id, s).value;
      && Grows(s.graph, t.graph) && t.names == s.names && t.report == s.report
      && env.identify(o) in t.graph.objects && (Alone(env, o, s.graph) ==> t.graph.objects[env.identify(o)] == o)
  {
  }

  /** A step names its node, reports on it, and only adds to the graph. */
  ghost predicate Stepped(env: Env, id: Id, s: State, t: State) {
    && Grows(s.graph, t.graph)
    && id in t.names && t.names == s.names[id := t.names[id]]
    && |t.report| == |s.report| + 1 && t.report[..|s.report|] == s.report
    && (id in env.lock && env.lock[id].genesis.Some? ==> t.names[id].genesis == env.lock[id].genesis.value)
  }

  lemma {:induction false} PublishSteps(env: Env, id: Id, node: Node, body: Body, prior: Option<Cid>, s: State)
    requires Publish(env, id, node, body, prior, s).Ok? && (id in env.lock ==> prior.Some?)
    ensures Stepped(env, id, s, Publish(env, id, node, body, prior, s).value)
    ensures var t := Publish(env, id, node, body, prior, s).value;
            var o := Version(node.kind, env.author, node.created, body);
      && t.names[id].cid == env.identify(o) && env.identify(o) in t.graph.objects
      && (Alone(env, o, s.graph) ==> t.graph.objects[env.identify(o)] == o)
  {
    var o := Version(node.kind, env.author, node.created, body);
    OfferGrows(env, o, id, s);
    if prior.Some? {
      var edge := Supersedes(env.author, node.created, env.identify(o), prior.value);
      OfferGrows(env, edge, id, Offer(env, o, id, s).value);
    }
  }

  lemma {:induction false} StepSteps(env: Env, id: Id, node: Node, s: State)
    requires Step(env, id, node, s).Ok?
    ensures Stepped(env, id, s, Step(env, id, node, s).value)
  {
    var prior := PriorOf(env.lock, id, node).value;
    var cells := Cells(node.slots, s.names, PriorCells(s.graph, prior)).value;
    var body := Body(node.content, cells);
    if !(prior.Some? && s.graph.objects[prior.value].body == body) {
      PublishSteps(env, id, node, body, prior, s);
    }
  }

  /** The version a node was built as holds what its source says, every slot
      filled from `names`. */
  ghost predicate KeptBy(node: Node, names: Names, prior: seq<Cell>, cid: Cid, g: Held) {
    && cid in g.objects && g.objects[cid].Version? && g.objects[cid].kind == node.kind
    && g.objects[cid].body.content == node.content
    && Cells(node.slots, names, prior) == Ok(g.objects[cid].body.cells)
  }

  /** What a step would publish is not held as something else. */
  ghost predicate Untwinned(env: Env, id: Id, node: Node, s: State) {
    var prior := PriorOf(env.lock, id, node);
    prior.Ok? ==>
      var cells := Cells(node.slots, s.names, PriorCells(s.graph, prior.value));
      cells.Ok? ==> Alone(env, Version(node.kind, env.author, node.created, Body(node.content, cells.value)), s.graph)
  }

  lemma {:induction false} StepKeeps(env: Env, id: Id, node: Node, s: State) returns (prior: seq<Cell>)
    requires Step(env, id, node, s).Ok? && Untwinned(env, id, node, s)
    ensures prior == PriorCells(s.graph, PriorOf(env.lock, id, node).value)
    ensures var t := Step(env, id, node, s).value;
           id in t.names && KeptBy(node, s.names, prior, t.names[id].cid, t.graph)
  {
    var before := PriorOf(env.lock, id, node).value;
    prior := PriorCells(s.graph, before);
    var body := Body(node.content, Cells(node.slots, s.names, prior).value);
    if !(before.Some? && s.graph.objects[before.value].body == body) {
      PublishSteps(env, id, node, body, before, s);
    }
  }

  // ------------------------------------------------------------------ a whole build

  ghost predicate Extends(a: Names, b: Names) {
    forall k :: k in a ==> k in b && b[k] == a[k]
  }

  lemma {:induction false} CellsExtend(slots: seq<Slot>, a: Names, b: Names, prior: seq<Cell>)
    requires Extends(a, b) && Cells(slots, a, prior).Ok?
    ensures Cells(slots, b, prior) == Cells(slots, a, prior)
    decreases |slots|
  {
    if slots != [] {
      CellsExtend(Init(slots), a, b, prior);
    }
  }

  /** Everything built so far is held, and filled from the names so far. */
  ghost predicate Settled(nodes: Nodes, order: seq<Id>, names: Names, g: Held) {
    forall id :: id in order ==> id in nodes && id in names && SettledAt(nodes[id], names, names[id].cid, g)
  }

  ghost predicate SettledAt(node: Node, names: Names, cid: Cid, g: Held) {
    exists prior :: KeptBy(node, names, prior, cid, g)
  }

  lemma {:induction false} SettledStays(node: Node, a: Names, b: Names, cid: Cid, g: Held, h: Held)
    requires SettledAt(node, a, cid, g) && Extends(a, b) && Grows(g, h)
    ensures SettledAt(node, b, cid, h)
  {
    var prior :| KeptBy(node, a, prior, cid, g);
    CellsExtend(node.slots, a, b, prior);
    assert KeptBy(node, b, prior, cid, h);
  }

  /** In no step is what it would publish held as something else. */
  ghost predicate AllUntwinned(env: Env, nodes: Nodes, order: seq<Id>, s: State)
    requires forall id :: id in order ==> id in nodes
    decreases |order|
  {
    order == [] || (Unsnoc(order);
      && AllUntwinned(env, nodes, Init(order), s)
      && (Steps(env, nodes, Init(order), s).Ok? ==>
            Untwinned(env, Last(order), nodes[Last(order)], Steps(env, nodes, Init(order), s).value)))
  }

  /** A build names exactly what it was given, reports on each, and only adds to
      the graph. */
  lemma {:induction false} StepsGrow(env: Env, nodes: Nodes, order: seq<Id>, graph: Held)
    requires Distinct(order) && forall id :: id in order ==> id in nodes
    requires Steps(env, nodes, order, Start(graph)).Ok?
    ensures var t := Steps(env, nodes, order, Start(graph)).value;
      Grows(graph, t.graph) && |t.report| == |order| && forall id :: id in t.names <==> id in order
    decreases |order|
  {
    if order != [] {
      Unsnoc(order);
      assert Distinct(Init(order));
      StepsGrow(env, nodes, Init(order), graph);
      StepSteps(env, Last(order), nodes[Last(order)], Steps(env, nodes, Init(order), Start(graph)).value);
    }
  }

  lemma {:induction false} StepsSettle(env: Env, nodes: Nodes, order: seq<Id>, graph: Held)
    requires Distinct(order) && forall id :: id in order ==> id in nodes
    requires Steps(env, nodes, order, Start(graph)).Ok? && AllUntwinned(env, nodes, order, Start(graph))
    ensures var t := Steps(env, nodes, order, Start(graph)).value; Settled(nodes, order, t.names, t.graph)
    decreases |order|
  {
    if order != [] {
      Unsnoc(order);
      assert Distinct(Init(order)) && Last(order) !in Init(order);
      StepsSettle(env, nodes, Init(order), graph);
      StepsGrow(env, nodes, Init(order), graph);
      var id, s := Last(order), Steps(env, nodes, Init(order), Start(graph)).value;
      StepSteps(env, id, nodes[id], s);
      var t := Step(env, id, nodes[id], s).value;
      assert Extends(s.names, t.names);
      var prior := StepKeeps(env, id, nodes[id], s);
      CellsExtend(nodes[id].slots, s.names, t.names, prior);
      assert KeptBy(nodes[id], t.names, prior, t.names[id].cid, t.graph);
      forall k | k in order
        ensures k in nodes && k in t.names && SettledAt(nodes[k], t.names, t.names[k].cid, t.graph)
      {
        if k != id {
          SettledStays(nodes[k], s.names, t.names, s.names[k].cid, s.graph, t.graph);
        }
      }
    }
  }

  // -------------------------------------------------------------------- a rebuild

  /** Rebuilt against the lock of an earlier build, with the names it relies on as
      they were, a node is found unchanged exactly when its slots are steady. */
  lemma {:induction false} StepAgain(
      env: Env, id: Id, node: Node, s: State, names: Names, graph: Held, prior: seq<Cell>)
    requires id in names && env.lock == LockOf(names) && Grows(graph, s.graph)
    requires KeptBy(node, names, prior, names[id].cid, graph)
    requires forall i :: 0 <= i < |node.slots| ==> SlotAgrees(node.slots[i], names, s.names)
    ensures Step(env, id, node, s) == Ok(Settle(id, names[id], Unchanged, s))
            <==> Steady(node.slots, graph.objects[names[id].cid].body.cells)
  {
    var held := graph.objects[names[id].cid];
    CellsAgain(node.slots, names, s.names, prior, held.body.cells);
    assert PriorCells(s.graph, Some(names[id].cid)) == held.body.cells;
    var again := Cells(node.slots, s.names, held.body.cells);
    if again.Ok? && again.value != held.body.cells {
      PublishOwns(env, id, node, Body(node.content, again.value), Some(names[id].cid), s);
    }
  }

  lemma {:induction false} PublishOwns(env: Env, id: Id, node: Node, body: Body, prior: Option<Cid>, s: State)
    ensures Publish(env, id, node, body, prior, s).Ok? ==>
      |Publish(env, id, node, body, prior, s).value.owned| > |s.owned|
  {
  }

  /** The names so far are those of an earlier build, on `same` exactly and
      elsewhere in their genesis. */
  ghost predicate Follows(earlier: Names, same: set<Id>, names: Names) {
    forall k :: k in names && k in earlier ==>
      names[k].genesis == earlier[k].genesis && (k in same ==> names[k] == earlier[k])
  }

  /** Every version the node's object carries is of a name in `same`. */
  ghost predicate Carries(node: Node, same: set<Id>) {
    forall i, d :: 0 <= i < |node.slots| && NeedsVersion(node.slots[i], d) ==> d in same
  }

  lemma {:induction false} SlotsAgree(node: Node, earlier: Names, same: set<Id>, names: Names, i: nat)
    requires i < |node.slots| && Follows(earlier, same, names) && Carries(node, same)
    requires forall d :: d in NamesIn(node.slots) ==> d in names
    ensures SlotAgrees(node.slots[i], earlier, names)
  {
    forall d | NeedsVersion(node.slots[i], d) || NeedsLineage(node.slots[i], d) ensures d in names {
      assert d in SlotNames(node.slots[i]);
    }
  }

  /** As an earlier build left it, and steady. */
  ghost predicate KeptSteady(node: Node, names: Names, cid: Cid, g: Held) {
    SettledAt(node, names, cid, g) && Steady(node.slots, g.objects[cid].body.cells)
  }

  /** A step on a node in `same`, after all it refers to. */
  lemma {:induction false} StepUnchanged(
      env: Env, id: Id, node: Node, s: State, earlier: Names, same: set<Id>, graph: Held)
    requires id in earlier && env.lock == LockOf(earlier) && Grows(graph, s.graph)
    requires KeptSteady(node, earlier, earlier[id].cid, graph) && Carries(node, same)
    requires Follows(earlier, same, s.names) && forall d :: d in NamesIn(node.slots) ==> d in s.names
    ensures Step(env, id, node, s) == Ok(Settle(id, earlier[id], Unchanged, s))
  {
    var prior :| KeptBy(node, earlier, prior, earlier[id].cid, graph);
    forall i | 0 <= i < |node.slots| ensures SlotAgrees(node.slots[i], earlier, s.names) {
      SlotsAgree(node, earlier, same, s.names, i);
    }
    StepAgain(env, id, node, s, earlier, graph, prior);
  }

  ghost predicate SameNodes(nodes: Nodes, earlier: Names, same: set<Id>, graph: Held) {
    forall id :: id in same ==>
      id in nodes && id in earlier && Carries(nodes[id], same) && KeptSteady(nodes[id], earlier, earlier[id].cid, graph)
  }

  lemma {:induction false} NeededBuilt(nodes: Nodes, order: seq<Id>, names: Names)
    requires order != [] && Last(order) in nodes && Distinct(order) && DepsBefore(Dependencies(nodes), order)
    requires forall id :: id in names <==> id in Init(order)
    ensures forall d :: d in NamesIn(nodes[Last(order)].slots) ==> d in names
  {
    PrefixOrdered(nodes, order);
    forall d | d in NamesIn(nodes[Last(order)].slots) ensures d in names {
      assert d in Dependencies(nodes)(Last(order));
    }
  }

  ghost predicate ReportsSame(earlier: Names, same: set<Id>, order: seq<Id>, report: seq<Report>) {
    && |report| == |order|
    && forall k :: 0 <= k < |order| && order[k] in same ==>
         order[k] in earlier && report[k] == Report(order[k], Unchanged, earlier[order[k]].cid)
  }

  lemma {:induction false} ReportsMore(earlier: Names, same: set<Id>, order: seq<Id>, report: seq<Report>)
    requires order != [] && |report| == |order| && ReportsSame(earlier, same, Init(order), Init(report))
    requires Last(order) in same ==>
      Last(order) in earlier && Last(report) == Report(Last(order), Unchanged, earlier[Last(order)].cid)
    ensures ReportsSame(earlier, same, order, report)
  {
    forall k | 0 <= k < |order| && order[k] in same
      ensures order[k] in earlier && report[k] == Report(order[k], Unchanged, earlier[order[k]].cid)
    {
      if k < |order| - 1 {
        assert Init(order)[k] == order[k] && Init(report)[k] == report[k];
      }
    }
  }

  /** One step of it. */
  lemma {:induction false} StepFollows(
      env: Env, nodes: Nodes, id: Id, s: State, earlier: Names, same: set<Id>, graph: Held)
    requires id in nodes && env.lock == LockOf(earlier) && SameNodes(nodes, earlier, same, graph)
    requires Step(env, id, nodes[id], s).Ok? && Grows(graph, s.graph) && Follows(earlier, same, s.names)
    requires forall d :: d in NamesIn(nodes[id].slots) ==> d in s.names
    ensures var t := Step(env, id, nodes[id], s).value;
      && Follows(earlier, same, t.names) && |t.report| == |s.report| + 1 && Init(t.report) == s.report
      && (id in same ==> id in earlier && Last(t.report) == Report(id, Unchanged, earlier[id].cid))
  {
    StepSteps(env, id, nodes[id], s);
    if id in same {
      StepUnchanged(env, id, nodes[id], s, earlier, same, graph);
    }
  }

  /** Nodes that carry versions only of each other stay as an earlier build made
      them, whatever becomes of the rest. */
  lemma {:induction false} StepsKeep(
      env: Env, nodes: Nodes, order: seq<Id>, earlier: Names, same: set<Id>, graph: Held)
    requires Distinct(order) && DepsBefore(Dependencies(nodes), order) && forall id :: id in order ==> id in nodes
    requires env.lock == LockOf(earlier) && SameNodes(nodes, earlier, same, graph)
    requires Steps(env, nodes, order, Start(graph)).Ok?
    ensures var t := Steps(env, nodes, order, Start(graph)).value;
      Follows(earlier, same, t.names) && ReportsSame(earlier, same, order, t.report)
    decreases |order|
  {
    if order != [] {
      PrefixOrdered(nodes, order);
      Unsnoc(order);
      StepsKeep(env, nodes, Init(order), earlier, same, graph);
      StepsGrow(env, nodes, Init(order), graph);
      var s := Steps(env, nodes, Init(order), Start(graph)).value;
      NeededBuilt(nodes, order, s.names);
      StepFollows(env, nodes, Last(order), s, earlier, same, graph);
      ReportsMore(earlier, same, order, Steps(env, nodes, order, Start(graph)).value.report);
    }
  }

  /** And if nothing is left out, the build succeeds and makes nothing. */
  lemma {:induction false} StepsRepeat(
      env: Env, nodes: Nodes, order: seq<Id>, earlier: Names, same: set<Id>, graph: Held)
    requires Distinct(order) && DepsBefore(Dependencies(nodes), order)
    requires forall id :: id in order ==> id in nodes && id in same
    requires env.lock == LockOf(earlier) && SameNodes(nodes, earlier, same, graph)
    ensures Steps(env, nodes, order, Start(graph)).Ok?
    ensures var t := Steps(env, nodes, order, Start(graph)).value;
      t.graph == graph && t.pending == [] && t.owned == []
    decreases |order|
  {
    if order != [] {
      PrefixOrdered(nodes, order);
      Unsnoc(order);
      StepsRepeat(env, nodes, Init(order), earlier, same, graph);
      StepsGrow(env, nodes, Init(order), graph);
      StepsKeep(env, nodes, Init(order), earlier, same, graph);
      var id, s := Last(order), Steps(env, nodes, Init(order), Start(graph)).value;
      NeededBuilt(nodes, order, s.names);
      StepUnchanged(env, id, nodes[id], s, earlier, same, graph);
    }
  }

  /** The document came out with its tracking items steady. */
  ghost predicate SteadyNode(nodes: Nodes, names: Names, graph: Held, id: Id) {
    id in nodes && id in names && names[id].cid in graph.objects && graph.objects[names[id].cid].Version? ==>
      Steady(nodes[id].slots, graph.objects[names[id].cid].body.cells)
  }

  ghost predicate AllSteady(nodes: Nodes, names: Names, graph: Held) {
    forall id :: id in nodes ==> SteadyNode(nodes, names, graph, id)
  }

  /** The names a build resolved, and the graph it left. */
  ghost function NamesOf(env: Env, nodes: Nodes, order: seq<Id>, graph: Held): Names
    requires OrderFor(nodes, order) && Steps(env, nodes, order, Start(graph)).Ok?
  {
    Steps(env, nodes, order, Start(graph)).value.names
  }

  lemma {:induction false} RepeatsExactly(env: Env, nodes: Nodes, order: seq<Id>, names: Names, graph: Held)
    requires OrderFor(nodes, order) && env.lock == LockOf(names) && names.Keys == nodes.Keys
    requires SameNodes(nodes, names, nodes.Keys, graph)
    ensures Steps(env, nodes, order, Start(graph)).Ok?
    ensures var t := Steps(env, nodes, order, Start(graph)).value;
      && t.graph == graph && t.pending == [] && t.owned == [] && t.names == names
      && ReportsSame(names, nodes.Keys, order, t.report)
  {
    StepsRepeat(env, nodes, order, names, nodes.Keys, graph);
    StepsKeep(env, nodes, order, names, nodes.Keys, graph);
    StepsGrow(env, nodes, order, graph);
    FollowsAll(names, Steps(env, nodes, order, Start(graph)).value.names);
  }

  lemma {:induction false} FollowsAll(earlier: Names, names: Names)
    requires Follows(earlier, earlier.Keys, names) && forall k :: k in names <==> k in earlier
    ensures names == earlier
  {
    assert names.Keys == earlier.Keys;
  }

  /** Building the same sources again publishes nothing and writes the same lock. */
  lemma {:induction false} RebuildMakesNothing(
      env: Env, nodes: Nodes, order: seq<Id>, graph: Held, built: Built, env': Env, order': seq<Id>)
    returns (again: Built)
    requires BuildsInto(env, nodes, order, graph, built) && AllUntwinned(env, nodes, order, Start(graph))
    requires AllSteady(nodes, NamesOf(env, nodes, order, graph), built.graph)
    requires env'.lock == built.lock && env'.valid == env.valid && OrderFor(nodes, order')
    ensures BuildsInto(env', nodes, order', built.graph, again)
    ensures again.pending == [] && again.owned == [] && again.graph == built.graph && again.lock == built.lock
    ensures ReportsSame(NamesOf(env, nodes, order, graph), nodes.Keys, order', again.report)
  {
    var names := NamesOf(env, nodes, order, graph);
    StepsGrow(env, nodes, order, graph);
    StepsSettle(env, nodes, order, graph);
    assert names.Keys == nodes.Keys;
    AllSame(nodes, names, built.graph);
    RepeatsExactly(env', nodes, order', names, built.graph);
    again := Built(built.graph, [], [], Steps(env', nodes, order', Start(built.graph)).value.report, built.lock);
  }

  lemma {:induction false} NeedsNamed(slot: Slot, names: Names, prior: seq<Cell>, d: Id)
    requires CellOf(slot, names, prior).Ok? && NeedsVersion(slot, d)
    ensures d in names
  {
  }

  lemma {:induction false} CarriesBuilt(node: Node, names: Names, prior: seq<Cell>)
    requires Cells(node.slots, names, prior).Ok?
    ensures Carries(node, names.Keys)
  {
    forall i, d | 0 <= i < |node.slots| && NeedsVersion(node.slots[i], d) ensures d in names {
      CellsAt(node.slots, names, prior, i);
      NeedsNamed(node.slots[i], names, prior, d);
    }
  }

  lemma {:induction false} AllSame(nodes: Nodes, names: Names, graph: Held)
    requires names.Keys == nodes.Keys
    requires forall id :: id in nodes ==> SettledAt(nodes[id], names, names[id].cid, graph)
    requires AllSteady(nodes, names, graph)
    ensures SameNodes(nodes, names, nodes.Keys, graph)
  {
    forall id | id in nodes
      ensures Carries(nodes[id], nodes.Keys) && KeptSteady(nodes[id], names, names[id].cid, graph)
    {
      var prior :| KeptBy(nodes[id], names, prior, names[id].cid, graph);
      CarriesBuilt(nodes[id], names, prior);
      assert SteadyNode(nodes, names, graph, id);
    }
  }

  /** A rebuild that makes nothing found every document's items steady. */
  lemma {:induction false} QuietMeansSteady(env: Env, nodes: Nodes, order: seq<Id>, names: Names, graph: Held)
    requires Distinct(order) && DepsBefore(Dependencies(nodes), order) && forall id :: id in order ==> id in nodes
    requires env.lock == LockOf(names) && Settled(nodes, order, names, graph)
    requires Steps(env, nodes, order, Start(graph)).Ok? && Steps(env, nodes, order, Start(graph)).value.owned == []
    ensures Extends(Steps(env, nodes, order, Start(graph)).value.names, names)
    ensures forall id :: id in order ==> Steady(nodes[id].slots, graph.objects[names[id].cid].body.cells)
    decreases |order|
  {
    if order != [] {
      PrefixOrdered(nodes, order);
      Unsnoc(order);
      var id, s := Last(order), Steps(env, nodes, Init(order), Start(graph)).value;
      StepOwns(env, id, nodes[id], s);
      QuietMeansSteady(env, nodes, Init(order), names, graph);
      StepsGrow(env, nodes, Init(order), graph);
      NeededBuilt(nodes, order, s.names);
      StepQuiet(env, id, nodes[id], s, names, graph);
    }
  }

  lemma {:induction false} StepOwns(env: Env, id: Id, node: Node, s: State)
    requires Step(env, id, node, s).Ok?
    ensures |Step(env, id, node, s).value.owned| >= |s.owned|
    ensures Step(env, id, node, s).value.owned == [] ==> s.owned == []
  {
    var prior := PriorOf(env.lock, id, node).value;
    var cells := Cells(node.slots, s.names, PriorCells(s.graph, prior)).value;
    PublishOwns(env, id, node, Body(node.content, cells), prior, s);
  }

  lemma {:induction false} StepQuiet(env: Env, id: Id, node: Node, s: State, names: Names, graph: Held)
    requires id in names && env.lock == LockOf(names) && Grows(graph, s.graph) && Extends(s.names, names)
    requires SettledAt(node, names, names[id].cid, graph)
    requires forall d :: d in NamesIn(node.slots) ==> d in s.names
    requires Step(env, id, node, s).Ok? && Step(env, id, node, s).value.owned == []
    ensures Step(env, id, node, s).value.names == s.names[id := names[id]]
    ensures Steady(node.slots, graph.objects[names[id].cid].body.cells)
  {
    var prior :| KeptBy(node, names, prior, names[id].cid, graph);
    forall i | 0 <= i < |node.slots| ensures SlotAgrees(node.slots[i], names, s.names) {
      forall d | NeedsVersion(node.slots[i], d) || NeedsLineage(node.slots[i], d) ensures d in s.names {
        assert d in SlotNames(node.slots[i]);
      }
    }
    StepAgain(env, id, node, s, names, graph, prior);
    var cells := Cells(node.slots, s.names, PriorCells(s.graph, Some(names[id].cid))).value;
    PublishOwns(env, id, node, Body(node.content, cells), Some(names[id].cid), s);
  }

  /** So rebuilding the same sources makes nothing exactly when they are. */
  lemma {:induction false} RebuildExactly(
      env: Env, nodes: Nodes, order: seq<Id>, graph: Held, built: Built, env': Env, order': seq<Id>)
    requires BuildsInto(env, nodes, order, graph, built) && AllUntwinned(env, nodes, order, Start(graph))
    requires env'.lock == built.lock && OrderFor(nodes, order')
    ensures (var r := Steps(env', nodes, order', Start(built.graph)); r.Ok? && r.value.owned == [])
            <==> AllSteady(nodes, NamesOf(env, nodes, order, graph), built.graph)
  {
    var names := NamesOf(env, nodes, order, graph);
    StepsGrow(env, nodes, order, graph);
    StepsSettle(env, nodes, order, graph);
    assert names.Keys == nodes.Keys;
    if AllSteady(nodes, names, built.graph) {
      AllSame(nodes, names, built.graph);
      RepeatsExactly(env', nodes, order', names, built.graph);
    }
    var r := Steps(env', nodes, order', Start(built.graph));
    if r.Ok? && r.value.owned == [] {
      QuietMeansSteady(env', nodes, order', names, built.graph);
    }
  }

  /** Not every build comes out steady: one document with two items on a lineage,
      the second without a version of its own, does not. */
  lemma {:induction false} UnsteadyBuild(
      id: Id, content: Bytes, author: Bytes, created: Bytes, lineage: Cid, first: Cid, identify: Object -> Cid)
    returns (env: Env, nodes: Nodes, graph: Held, built: Built)
    requires first != lineage
    ensures env.identify == identify && env.author == author
    ensures BuildsInto(env, nodes, [id], graph, built) && AllUntwinned(env, nodes, [id], Start(graph))
    ensures !AllSteady(nodes, NamesOf(env, nodes, [id], graph), built.graph)
  {
    var slots := [Tracking(Fixed(lineage), Some(Fixed(first))), Tracking(Fixed(lineage), None)];
    var cells := [Tracked(lineage, Some(first)), Tracked(lineage, Some(lineage))];
    var node := Node(Doc, content, slots, created, None);
    nodes, graph := map[id := node], Held(map[], map[]);
    env := Env(author, map[], identify, (g, o) => true, (g, c) => true, g => true);
    var s := Start(graph);
    CellsFrom(slots, s.names, [], cells);
    var o := Version(Doc, author, created, Body(content, cells));
    var t := Step(env, id, node, s).value;
    assert Step(env, id, node, s) == Publish(env, id, node, o.body, None, s);
    assert t.graph.objects == map[identify(o) := o] && t.names == map[id := Resolved(identify(o), identify(o))];
    assert Init([id]) == [];
    assert Steps(env, nodes, [], s) == Ok(s) && Steps(env, nodes, [id], s) == Ok(t);
    assert Listing(NamesIn(slots)) == [] by {
      var one := [slots[0]];
      assert SlotNames(slots[0]) == {} && SlotNames(slots[1]) == {};
      assert Init(slots) == one && Init(one) == [];
      assert NamesIn(one) == NamesIn([]) + {} == {};
      assert NamesIn(slots) == NamesIn(one) + {} == {};
    }
    built := Built(t.graph, t.pending, t.owned, t.report, LockOf(t.names));
    assert !SteadyAt(slots[1], cells[1], cells);
    assert !SteadyNode(nodes, t.names, t.graph, id);
  }

  // ------------------------------------------------------------- minimal revision

  /** Names whose versions a node's object carries. */
  ghost function Carried(node: Node): set<Id> {
    set d | d in NamesIn(node.slots) && exists i :: 0 <= i < |node.slots| && NeedsVersion(node.slots[i], d)
  }

  ghost function CarriedBy(nodes: Nodes): Next {
    id => if id in nodes then Listing(Carried(nodes[id])) else []
  }

  /** Nothing whose version `x` carries, directly or not, is edited. */
  ghost predicate Untouched(nodes: Nodes, edited: Nodes, x: Id) {
    forall d :: Reaches(CarriedBy(nodes), x, d) ==> d in nodes && d in edited && edited[d] == nodes[d]
  }

  /** Every document whose version `x` carries, and `x`, came out steady. */
  ghost predicate SteadyBelow(nodes: Nodes, names: Names, graph: Held, x: Id) {
    forall d :: Reaches(CarriedBy(nodes), x, d) ==> SteadyNode(nodes, names, graph, d)
  }

  /** What a carried version carries is carried. */
  lemma {:induction false} CarriedReaches(nodes: Nodes, x: Id, d: Id, i: nat)
    requires x in nodes && i < |nodes[x].slots| && NeedsVersion(nodes[x].slots[i], d)
    ensures forall e :: Reaches(CarriedBy(nodes), d, e) ==> Reaches(CarriedBy(nodes), x, e)
  {
    assert d in SlotNames(nodes[x].slots[i]);
    assert d in CarriedBy(nodes)(x);
    ReachesSelf(CarriedBy(nodes), x);
    ReachesStep(CarriedBy(nodes), x, x, d);
    forall e | Reaches(CarriedBy(nodes), d, e) ensures Reaches(CarriedBy(nodes), x, e) {
      ReachesTransitive(CarriedBy(nodes), x, d, e);
    }
  }

  /** `x` and whatever it carries is untouched and steady. */
  ghost predicate Stays(nodes: Nodes, edited: Nodes, names: Names, graph: Held, x: Id) {
    x in nodes && Untouched(nodes, edited, x) && SteadyBelow(nodes, names, graph, x)
  }

  lemma {:induction false} StaysItself(nodes: Nodes, edited: Nodes, names: Names, graph: Held, x: Id)
    requires Stays(nodes, edited, names, graph, x)
    ensures x in edited && edited[x] == nodes[x] && SteadyNode(nodes, names, graph, x)
  {
    ReachesSelf(CarriedBy(nodes), x);
  }

  lemma {:induction false} StaysCarried(nodes: Nodes, edited: Nodes, names: Names, graph: Held, x: Id, i: nat, d: Id)
    requires Stays(nodes, edited, names, graph, x) && i < |nodes[x].slots| && NeedsVersion(nodes[x].slots[i], d)
    ensures Stays(nodes, edited, names, graph, d)
  {
    CarriedReaches(nodes, x, d, i);
    ReachesSelf(CarriedBy(nodes), d);
  }

  lemma {:induction false} UntouchedSame(nodes: Nodes, edited: Nodes, names: Names, graph: Held) returns (same: set<Id>)
    requires names.Keys == nodes.Keys
    requires forall id :: id in nodes ==> SettledAt(nodes[id], names, names[id].cid, graph)
    ensures forall x :: x in same <==> Stays(nodes, edited, names, graph, x)
    ensures SameNodes(edited, names, same, graph)
  {
    same := set x | x in nodes && Stays(nodes, edited, names, graph, x);
    forall id | id in same
      ensures id in edited && id in names && Carries(edited[id], same)
      ensures KeptSteady(edited[id], names, names[id].cid, graph)
    {
      StaysItself(nodes, edited, names, graph, id);
      forall i, d | 0 <= i < |nodes[id].slots| && NeedsVersion(nodes[id].slots[i], d) ensures d in same {
        StaysCarried(nodes, edited, names, graph, id, i, d);
      }
      assert SettledAt(nodes[id], names, names[id].cid, graph);
    }
  }

  /** After any edits, a name none of whose carried versions was edited, all of
      them steady, keeps its identifier and is reported unchanged, whatever the
      rest of the build is like. */
  lemma {:induction false} MinimalRevision(
      env: Env, nodes: Nodes, order: seq<Id>, graph: Held, built: Built,
      env': Env, edited: Nodes, order': seq<Id>, after: Built, x: Id)
    requires BuildsInto(env, nodes, order, graph, built) && AllUntwinned(env, nodes, order, Start(graph))
    requires SteadyBelow(nodes, NamesOf(env, nodes, order, graph), built.graph, x)
    requires env'.lock == built.lock && BuildsInto(env', edited, order', built.graph, after)
    requires x in nodes && Untouched(nodes, edited, x)
    ensures x in built.lock && x in after.lock && after.lock[x] == built.lock[x]
    ensures exists k :: 0 <= k < |after.report| && after.report[k] == Report(x, Unchanged, built.lock[x].cid.value)
  {
    var names := NamesOf(env, nodes, order, graph);
    StepsGrow(env, nodes, order, graph);
    StepsSettle(env, nodes, order, graph);
    assert names.Keys == nodes.Keys;
    var same := UntouchedSame(nodes, edited, names, built.graph);
    assert x in same && x in order';
    KeptInLock(env', edited, order', names, same, built.graph, x);
  }

  lemma {:induction false} KeptInLock(
      env: Env, nodes: Nodes, order: seq<Id>, earlier: Names, same: set<Id>, graph: Held, x: Id)
    requires OrderFor(nodes, order) && env.lock == LockOf(earlier) && SameNodes(nodes, earlier, same, graph)
    requires Steps(env, nodes, order, Start(graph)).Ok? && x in same && x in order
    ensures var t := Steps(env, nodes, order, Start(graph)).value;
      && x in t.names && t.names[x] == earlier[x]
      && |order| == |t.report|
      && exists k :: 0 <= k < |order| && order[k] == x && t.report[k] == Report(x, Unchanged, earlier[x].cid)
  {
    StepsKeep(env, nodes, order, earlier, same, graph);
    StepsGrow(env, nodes, order, graph);
    var k :| 0 <= k < |order| && order[k] == x;
  }

  // --------------------------------------------------------------------- genesis

  /** A name the lock knows keeps its genesis. */
  lemma {:induction false} GenesisKept(env: Env, nodes: Nodes, order: seq<Id>, graph: Held, id: Id)
    requires Distinct(order) && (forall k :: k in order ==> k in nodes) && id in order
    requires Steps(env, nodes, order, Start(graph)).Ok?
    requires id in env.lock && env.lock[id].genesis.Some?
    ensures var t := Steps(env, nodes, order, Start(graph)).value;
      id in t.names && t.names[id].genesis == env.lock[id].genesis.value
    decreases |order|
  {
    Unsnoc(order);
    assert Distinct(Init(order)) && Last(order) !in Init(order);
    var s := Steps(env, nodes, Init(order), Start(graph)).value;
    StepSteps(env, Last(order), nodes[Last(order)], s);
    if id != Last(order) {
      GenesisKept(env, nodes, Init(order), graph, id);
    }
  }

  /** A name the lock does not know, and whose source names no prior, begins a
      lineage with its own version: so a name dropped and declared again moves. */
  lemma {:induction false} NewLineage(env: Env, id: Id, node: Node, s: State)
    requires id !in env.lock && node.supersedes.None? && Step(env, id, node, s).Ok?
    ensures var t := Step(env, id, node, s).value; id in t.names && t.names[id].genesis == t.names[id].cid
  {
    var cells := Cells(node.slots, s.names, PriorCells(s.graph, None)).value;
    PublishSteps(env, id, node, Body(node.content, cells), None, s);
  }

  /** Some build against `lock` wrote `next`. */
  ghost predicate LeadsTo(lock: Lock, next: Lock) {
    exists env: Env, nodes, order, graph, built ::
      (env.lock == lock && BuildsInto(env, nodes, order, graph, built) && built.lock == next)
  }

  /** Over any run of builds in which a name is never dropped, its genesis is one. */
  lemma {:induction false} GenesisConstant(locks: seq<Lock>, id: Id, j: nat)
    requires j < |locks| && forall k :: 0 <= k < |locks| - 1 ==> LeadsTo(locks[k], locks[k + 1])
    requires forall k :: 0 <= k <= j ==> id in locks[k]
    requires locks[0][id].genesis.Some?
    ensures locks[j][id].genesis == locks[0][id].genesis
  {
    if j > 0 {
      GenesisConstant(locks, id, j - 1);
      assert LeadsTo(locks[j - 1], locks[j - 1 + 1]);
      var env: Env, nodes, order, graph, built :|
        env.lock == locks[j - 1] && BuildsInto(env, nodes, order, graph, built) && built.lock == locks[j];
      StepsGrow(env, nodes, order, graph);
      GenesisKept(env, nodes, order, graph, id);
    }
  }
}
