/** Building a whole tree: its names looked up, its nodes put in order, and each
    built in turn. */
module TreeBuild {
  import opened Seqs
  import opened Ordering
  import opened Wrappers
  import opened Graph
  import opened Topological
  import opened Build
  import opened BuildLaws

  /** The names a slot gives, as the source is read. */
  function SlotRefs(slot: Slot): (r: seq<Id>)
    ensures forall d :: d in r <==> d in SlotNames(slot)
  {
    match slot
    case ObjectBound(t) => TargetRefs(t)
    case LineageBound(t) => TargetRefs(t)
    case Tracking(t, at) => TargetRefs(t) + if at.Some? then TargetRefs(at.value) else []
  }

  function TargetRefs(t: Target): seq<Id> {
    if t.Named? then [t.id] else []
  }

  /** Every reference a node makes to another, in order. */
  function RefsIn(slots: seq<Slot>): (r: seq<Id>)
    ensures forall d :: d in r <==> d in NamesIn(slots)
    decreases |slots|
  {
    if slots == [] then [] else RefsIn(Init(slots)) + SlotRefs(Last(slots))
  }

  method RefsOf(node: Node) returns (refs: seq<Id>)
    ensures refs == RefsIn(node.slots)
  {
    refs := [];
    for i := 0 to |node.slots|
      invariant refs == RefsIn(node.slots[..i])
    {
      assert Init(node.slots[..i + 1]) == node.slots[..i];
      refs := refs + SlotRefs(node.slots[i]);
    }
    assert node.slots[..|node.slots|] == node.slots;
  }

  /** The first reference to nothing, of the first node that has one. */
  ghost predicate FirstUndeclared(nodes: Nodes, id: Id, target: Id) {
    && id in nodes && (forall j :: j in nodes && Less(j, id) ==> Declares(nodes, j))
    && exists k :: FirstMissing(nodes, RefsIn(nodes[id].slots), k, target)
  }

  ghost predicate FirstMissing(nodes: Nodes, refs: seq<Id>, k: int, target: Id) {
    0 <= k < |refs| && refs[k] == target && target !in nodes && forall i :: 0 <= i < k ==> refs[i] in nodes
  }

  /** Each node's references, looked up one after another until one is missing. */
  method Resolve(nodes: Nodes) returns (r: Result<(), BuildError>)
    ensures r.Ok? <==> Closed(Dependencies(nodes), nodes.Keys)
    ensures r.Err? ==> r.error.NothingDeclares? && FirstUndeclared(nodes, r.error.id, r.error.target)
  {
    var ids := Listing(nodes.Keys);
    for i := 0 to |ids|
      invariant FirstDeclare(nodes, ids, i)
    {
      assert ids[i] in ids;
      var refs := RefsOf(nodes[ids[i]]);
      var missing := Missing(nodes, refs);
      if missing.Some? {
        FirstFound(nodes, ids, i, missing.value);
        return Err(NothingDeclares(ids[i], missing.value));
      }
      assert Declares(nodes, ids[i]);
    }
    AllDeclared(nodes, ids);
    r := Ok(());
  }

  /** The first of `refs` that nothing declares. */
  method Missing(nodes: Nodes, refs: seq<Id>) returns (target: Option<Id>)
    ensures target.None? <==> forall d :: d in refs ==> d in nodes
    ensures target.Some? ==> target.value in refs && target.value !in nodes
    ensures target.Some? ==> exists k :: FirstMissing(nodes, refs, k, target.value)
  {
    for k := 0 to |refs|
      invariant forall j :: 0 <= j < k ==> refs[j] in nodes
    {
      assert refs[k] in refs;
      if refs[k] !in nodes {
        assert FirstMissing(nodes, refs, k, refs[k]);
        return Some(refs[k]);
      }
    }
    target := None;
  }

  ghost predicate FirstDeclare(nodes: Nodes, ids: seq<Id>, n: nat) {
    n <= |ids| && forall j :: 0 <= j < n ==> Declares(nodes, ids[j])
  }

  lemma {:induction false} FirstFound(nodes: Nodes, ids: seq<Id>, i: nat, target: Id)
    requires Increasing(ids) && (forall id :: id in nodes ==> id in ids) && i < |ids| && ids[i] in nodes
    requires FirstDeclare(nodes, ids, i) && exists k :: FirstMissing(nodes, RefsIn(nodes[ids[i]].slots), k, target)
    ensures FirstUndeclared(nodes, ids[i], target) && !Closed(Dependencies(nodes), nodes.Keys)
  {
    var k :| FirstMissing(nodes, RefsIn(nodes[ids[i]].slots), k, target);
    assert target in RefsIn(nodes[ids[i]].slots);
    NotClosed(nodes, ids[i], target);
    forall j | j in nodes && Less(j, ids[i]) ensures Declares(nodes, j) {
      var n :| 0 <= n < |ids| && ids[n] == j;
      LessAsymmetric(j, ids[i]);
      assert n < i;
    }
  }

  /** All a node refers to is declared. */
  ghost predicate Declares(nodes: Nodes, id: Id) {
    id in nodes && forall d :: d in NamesIn(nodes[id].slots) ==> d in nodes
  }

  lemma {:induction false} AllDeclared(nodes: Nodes, ids: seq<Id>)
    requires forall id :: id in nodes ==> id in ids
    requires FirstDeclare(nodes, ids, |ids|)
    ensures Closed(Dependencies(nodes), nodes.Keys)
  {
    forall v, d | v in nodes && d in Dependencies(nodes)(v) ensures d in nodes {
      var j :| 0 <= j < |ids| && ids[j] == v;
      assert Declares(nodes, ids[j]);
    }
  }

  lemma {:induction false} NotClosed(nodes: Nodes, id: Id, d: Id)
    requires id in nodes && d in NamesIn(nodes[id].slots) && d !in nodes
    ensures !Closed(Dependencies(nodes), nodes.Keys)
  {
    assert d in Dependencies(nodes)(id);
  }

  /** With everything it names built, no slot meets a name that is not. */
  lemma {:induction false} CellsBuilt(slots: seq<Slot>, names: Names, prior: seq<Cell>)
    requires forall d :: d in NamesIn(slots) ==> d in names
    ensures Cells(slots, names, prior).Err? ==> Cells(slots, names, prior).error.NotACorpus?
    decreases |slots|
  {
    if slots != [] {
      CellsBuilt(Init(slots), names, prior);
      assert forall d :: d in SlotNames(Last(slots)) ==> d in names;
    }
  }

  /** What can be wrong with one node once all it refers to is built. */
  predicate OfOneNode(e: BuildError) {
    e.NotACorpus? || e.BadLock? || e.NotHeld? || e.WrongKind? || e.Refused?
  }

  lemma {:induction false} StepBuilt(env: Env, id: Id, node: Node, s: State)
    requires forall d :: d in NamesIn(node.slots) ==> d in s.names
    ensures Step(env, id, node, s).Err? ==> OfOneNode(Step(env, id, node, s).error)
  {
    if PriorOf(env.lock, id, node).Ok? {
      CellsBuilt(node.slots, s.names, PriorCells(s.graph, PriorOf(env.lock, id, node).value));
    }
  }

  lemma {:induction false} PrefixOrder(nodes: Nodes, order: seq<Id>, i: nat)
    requires Distinct(order) && DepsBefore(Dependencies(nodes), order) && i <= |order|
    ensures Distinct(order[..i]) && DepsBefore(Dependencies(nodes), order[..i])
    decreases |order|
  {
    if i == |order| {
      assert order[..i] == order;
    } else {
      PrefixOrdered(nodes, order);
      PrefixOrder(nodes, Init(order), i);
      assert Init(order)[..i] == order[..i];
    }
  }

  /** The next node of an order finds what it names built. */
  lemma {:induction false} NextBuilt(env: Env, nodes: Nodes, order: seq<Id>, i: nat, s: State, graph: Held)
    requires OrderFor(nodes, order) && i < |order| && forall id :: id in order[..i] ==> id in nodes
    requires Steps(env, nodes, order[..i], Start(graph)) == Ok(s)
    ensures order[i] in nodes && forall id :: id in order[..i + 1] ==> id in nodes
    ensures Steps(env, nodes, order[..i + 1], Start(graph)) == Step(env, order[i], nodes[order[i]], s)
    ensures Step(env, order[i], nodes[order[i]], s).Err? ==> OfOneNode(Step(env, order[i], nodes[order[i]], s).error)
  {
    var next := order[..i + 1];
    assert Init(next) == order[..i] && Last(next) == order[i] && order[i] in order;
    PrefixOrder(nodes, order, i + 1);
    PrefixOrder(nodes, order, i);
    StepsGrow(env, nodes, order[..i], graph);
    NeededBuilt(nodes, next, s.names);
    StepBuilt(env, order[i], nodes[order[i]], s);
  }

  /** An error met part of the way is the whole build's. */
  lemma {:induction false} StepsFail(env: Env, nodes: Nodes, order: seq<Id>, i: nat, s: State)
    requires i <= |order| && forall id :: id in order ==> id in nodes
    requires Steps(env, nodes, order[..i], s).Err?
    ensures Steps(env, nodes, order, s) == Steps(env, nodes, order[..i], s)
    decreases |order|
  {
    if i == |order| {
      assert order[..i] == order;
    } else {
      Unsnoc(order);
      assert Init(order)[..i] == order[..i];
      StepsFail(env, nodes, Init(order), i, s);
    }
  }

  /** The walk from all names in their order, taking references in theirs. */
  ghost predicate GivenOrder(nodes: Nodes, r: Result<seq<Id>, seq<Id>>) {
    && Closed(Dependencies(nodes), nodes.Keys)
    && r == PlaceAll(Dependencies(nodes), nodes.Keys, Listing(nodes.Keys), [], [])
  }

  /** Every node of the graph of references, children before parents. */
  method Ordered(nodes: Nodes) returns (r: Result<seq<Id>, seq<Id>>)
    requires Closed(Dependencies(nodes), nodes.Keys)
    ensures r.Ok? ==> OrderFor(nodes, r.value)
    ensures r.Err? ==> IsCycle(Dependencies(nodes), r.error)
    ensures GivenOrder(nodes, r)
  {
    var inputs := Listing(nodes.Keys);
    r := TopologicalOrder(inputs, Dependencies(nodes), nodes.Keys);
    if r.Ok? {
      forall id ensures id in r.value <==> id in nodes {
        if id in nodes {
          ReachesSelf(Dependencies(nodes), id);
          assert id in inputs;
        }
        if id in r.value {
          var n :| n in inputs && Reaches(Dependencies(nodes), n, id);
          var p :| IsPath(Dependencies(nodes), p, n, id);
          PathStays(Dependencies(nodes), nodes.Keys, p, |p| - 1);
        }
      }
    }
  }

  /** An order there is holds every name, and has no cycle. */
  lemma {:induction false} OrderedIsClosed(nodes: Nodes, order: seq<Id>)
    requires OrderFor(nodes, order)
    ensures Closed(Dependencies(nodes), nodes.Keys)
    ensures forall c :: !IsCycle(Dependencies(nodes), c)
  {
    var deps := Dependencies(nodes);
    forall v, d | v in nodes && d in deps(v) ensures d in nodes {
      var i :| 0 <= i < |order| && order[i] == v;
      assert d in order[..i];
    }
    forall c ensures !IsCycle(deps, c) {
      if IsCycle(deps, c) {
        assert c[1] in deps(c[0]);
        var at :| 0 <= at < |order| && order[at] == c[0];
        var place := PlacesGoDown(deps, order, c, at, |c| - 1);
      }
    }
  }

  /** No order puts every node after all it refers to. */
  ghost predicate NoOrder(nodes: Nodes) {
    forall order :: !OrderFor(nodes, order)
  }

  lemma {:induction false} CycleMeansNoOrder(nodes: Nodes, c: seq<Id>)
    requires IsCycle(Dependencies(nodes), c)
    ensures NoOrder(nodes)
  {
    forall order ensures !OrderFor(nodes, order) {
      if OrderFor(nodes, order) {
        OrderedIsClosed(nodes, order);
      }
    }
  }

  lemma {:induction false} UndeclaredMeansNoOrder(nodes: Nodes)
    requires !Closed(Dependencies(nodes), nodes.Keys)
    ensures NoOrder(nodes)
  {
    forall order ensures !OrderFor(nodes, order) {
      if OrderFor(nodes, order) {
        OrderedIsClosed(nodes, order);
      }
    }
  }

  /** Every node built after all it refers to; nothing is met before it is built. */
  method BuildTree(env: Env, nodes: Nodes, graph: Held) returns (r: Result<Built, BuildError>, ghost order: seq<Id>)
    ensures r.Ok? ==> BuildsInto(env, nodes, order, graph, r.value)
    ensures OrderFor(nodes, order) || NoOrder(nodes)
    ensures OrderFor(nodes, order) ==> GivenOrder(nodes, Ok(order))
    ensures r.Ok? <==>
      && OrderFor(nodes, order)
      && Steps(env, nodes, order, Start(graph)).Ok?
      && env.valid(Steps(env, nodes, order, Start(graph)).value.graph)
    ensures r.Err? ==> match r.error
      case NothingDeclares(id, target) => FirstUndeclared(nodes, id, target)
      case Cyclic(cycle) =>
        Closed(Dependencies(nodes), nodes.Keys) && IsCycle(Dependencies(nodes), cycle) && GivenOrder(nodes, Err(cycle))
      case TreeRefused =>
        && OrderFor(nodes, order)
        && Steps(env, nodes, order, Start(graph)).Ok?
        && !env.valid(Steps(env, nodes, order, Start(graph)).value.graph)
      case e => OfOneNode(e) && OrderFor(nodes, order) && Steps(env, nodes, order, Start(graph)) == Err(e)
  {
    order := [];
    var resolved := Resolve(nodes);
    if resolved.Err? {
      UndeclaredMeansNoOrder(nodes);
      return Err(resolved.error), [];
    }
    var sorted := Ordered(nodes);
    if sorted.Err? {
      CycleMeansNoOrder(nodes, sorted.error);
      return Err(Cyclic(sorted.error)), [];
    }
    order := sorted.value;
    r := BuildInOrder(env, nodes, graph, sorted.value);
  }

  /** One after another, and then the whole tree is looked at. */
  method BuildInOrder(env: Env, nodes: Nodes, graph: Held, ids: seq<Id>) returns (r: Result<Built, BuildError>)
    requires OrderFor(nodes, ids)
    ensures r.Ok? ==> BuildsInto(env, nodes, ids, graph, r.value)
    ensures r.Ok? <==> Steps(env, nodes, ids, Start(graph)).Ok?
                       && env.valid(Steps(env, nodes, ids, Start(graph)).value.graph)
    ensures r.Err? ==> match r.error
      case TreeRefused =>
        Steps(env, nodes, ids, Start(graph)).Ok? && !env.valid(Steps(env, nodes, ids, Start(graph)).value.graph)
      case e => OfOneNode(e) && Steps(env, nodes, ids, Start(graph)) == Err(e)
  {
    var build := new Build(env, graph);
    for i := 0 to |ids|
      invariant fresh(build) && build.env == env
      invariant forall id :: id in ids[..i] ==> id in nodes
      invariant Steps(env, nodes, ids[..i], Start(graph)) == Ok(build.Now())
    {
      NextBuilt(env, nodes, ids, i, build.Now(), graph);
      var step := build.Node(ids[i], nodes[ids[i]]);
      if step.Err? {
        StepsFail(env, nodes, ids, i + 1, Start(graph));
        return Err(step.error);
      }
    }
    assert ids[..|ids|] == ids;
    if !env.valid(build.graph) {
      return Err(TreeRefused);
    }
    r := Ok(Built(build.graph, build.pending, build.owned, build.report, LockOf(build.names)));
  }
}
