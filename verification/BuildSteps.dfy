/** What a build writes: every reference it fills, every object and edge it
    publishes, and what it says of each name, field by field. */
module BuildSteps {
  import opened Hashing
  import opened Seqs
  import opened Ordering
  import opened Wrappers
  import opened Graph
  import opened Build
  import opened BuildLaws

  // ------------------------------------------------------------------- references

  /** The version a reference names. */
  ghost predicate NamesVersion(t: Target, names: Names, cid: Cid) {
    t == Fixed(cid) || exists d :: t == Named(d) && d in names && names[d].cid == cid
  }

  /** The lineage a reference names. */
  ghost predicate NamesLineage(t: Target, names: Names, cid: Cid) {
    t == Fixed(cid) || exists d :: t == Named(d) && d in names && names[d].genesis == cid
  }

  /** Item `j` is the first that tracks the lineage. */
  ghost predicate FirstOn(cells: seq<Cell>, lineage: Cid, j: nat) {
    && j < |cells| && cells[j].Tracked? && cells[j].lineage == lineage
    && forall k :: 0 <= k < j && cells[k].Tracked? ==> cells[k].lineage != lineage
  }

  /** The version read: the one named, or else the one the first item on the
      lineage recorded before, or else the current one. */
  ghost predicate ReadAs(t: Target, at: Option<Target>, names: Names, prior: seq<Cell>, lineage: Cid, cid: Cid) {
    if at.Some? then NamesVersion(at.value, names, cid)
    else
      || (exists j: nat :: FirstOn(prior, lineage, j) && prior[j].at == Some(cid))
      || ((forall j: nat :: FirstOn(prior, lineage, j) ==> prior[j].at.None?) && NamesVersion(t, names, cid))
  }

  /** What an object holds for a reference of its source. */
  ghost predicate FilledAs(slot: Slot, names: Names, prior: seq<Cell>, cell: Cell) {
    match (slot, cell)
    case (ObjectBound(t), Plain(cid)) => NamesVersion(t, names, cid)
    case (LineageBound(t), Plain(cid)) => NamesLineage(t, names, cid)
    case (Tracking(t, at), Tracked(lineage, Some(cid))) =>
      NamesLineage(t, names, lineage) && ReadAs(t, at, names, prior, lineage, cid)
    case _ => false
  }

  lemma {:induction false} ReadAtFirst(prior: seq<Cell>, lineage: Cid)
    ensures forall j: nat :: FirstOn(prior, lineage, j) ==> ReadAt(prior, lineage) == prior[j].at
    ensures ReadAt(prior, lineage).Some? ==> exists j: nat :: FirstOn(prior, lineage, j)
  {
    if prior != [] && !(prior[0].Tracked? && prior[0].lineage == lineage) {
      var rest := prior[1..];
      ReadAtFirst(rest, lineage);
      forall j: nat | FirstOn(prior, lineage, j) ensures ReadAt(prior, lineage) == prior[j].at {
        assert FirstOn(rest, lineage, j - 1);
      }
      if j: nat :| FirstOn(rest, lineage, j) {
        assert FirstOn(prior, lineage, j + 1);
      }
    } else if prior != [] {
      assert FirstOn(prior, lineage, 0);
    }
  }

  lemma {:induction false} CellFilled(slot: Slot, names: Names, prior: seq<Cell>)
    requires CellOf(slot, names, prior).Ok?
    ensures FilledAs(slot, names, prior, CellOf(slot, names, prior).value)
  {
    var cell := CellOf(slot, names, prior).value;
    if slot.Tracking? {
      ReadAtFirst(prior, cell.lineage);
    }
  }

  ghost predicate RefersTo(slot: Slot, t: Target) {
    match slot
    case ObjectBound(u) => u == t
    case LineageBound(u) => u == t
    case Tracking(u, at) => u == t || at == Some(t)
  }

  /** A reference cannot be filled only when it, or the version an item names, is
      to a node that is not built or to another corpus. */
  lemma {:induction false} Unfillable(slot: Slot, names: Names, prior: seq<Cell>, i: Id)
    ensures CellOf(slot, names, prior).Err? ==>
      match CellOf(slot, names, prior).error
      case NotBuilt(id) => id in SlotNames(slot) && id !in names
      case NotACorpus(reference) => RefersTo(slot, Import(reference))
      case _ => false
  {
  }

  /** The names a node refers to are those its slots do. */
  lemma {:induction false} NamesAre(slots: seq<Slot>, d: Id)
    ensures d in NamesIn(slots) <==> exists i :: 0 <= i < |slots| && RefersTo(slots[i], Named(d))
    decreases |slots|
  {
    if slots != [] {
      NamesAre(Init(slots), d);
      assert slots[|slots| - 1] == Last(slots);
      if d in SlotNames(Last(slots)) {
        assert RefersTo(slots[|slots| - 1], Named(d));
      }
      if i :| 0 <= i < |Init(slots)| && RefersTo(Init(slots)[i], Named(d)) {
        assert RefersTo(slots[i], Named(d));
      }
      if i :| 0 <= i < |slots| && RefersTo(slots[i], Named(d)) {
        assert i < |Init(slots)| ==> RefersTo(Init(slots)[i], Named(d));
      }
    }
  }

  // ------------------------------------------------------------------- one step

  /** What the lock, or else the source, gives as the version to revise. */
  lemma {:induction false} PriorIs(lock: Lock, id: Id, node: Node)
    ensures id in lock && lock[id].cid.Some? ==> PriorOf(lock, id, node) == Ok(lock[id].cid)
    ensures id in lock && lock[id].cid.None? ==> PriorOf(lock, id, node) == Err(BadLock(id))
    ensures id !in lock ==> PriorOf(lock, id, node) == Ok(node.supersedes)
  {
  }

  /** The step got as far as this body, revising `prior` if there is one. */
  ghost predicate Composes(env: Env, id: Id, node: Node, s: State, prior: Option<Cid>, cells: seq<Cell>) {
    PriorOf(env.lock, id, node) == Ok(prior) && Cells(node.slots, s.names, PriorCells(s.graph, prior)) == Ok(cells)
  }

  /** A held version whose content and references the source still gives is kept:
      nothing is published, and the name stays with it. */
  lemma {:induction false} Kept(
      env: Env, id: Id, node: Node, s: State, p: Cid, cells: seq<Cell>, author: Bytes, created: Bytes)
    requires Composes(env, id, node, s, Some(p), cells)
    requires p in s.graph.objects
    requires s.graph.objects[p] == Version(node.kind, author, created, Body(node.content, cells))
    ensures var r := Step(env, id, node, s);
      && r.Ok?
      && r.value.graph == s.graph && r.value.pending == s.pending && r.value.owned == s.owned
      && r.value.report == s.report + [Report(id, Unchanged, p)]
      && id in r.value.names && r.value.names == s.names[id := r.value.names[id]] && r.value.names[id].cid == p
  {
  }

  /** A first version: written by the builder at the source's date, with the
      source's content, under a lineage of its own. */
  lemma {:induction false} FirstVersion(env: Env, id: Id, node: Node, s: State, cells: seq<Cell>, c: Cid)
    requires Composes(env, id, node, s, None, cells)
    requires c == env.identify(Version(node.kind, env.author, node.created, Body(node.content, cells)))
    requires Step(env, id, node, s).Ok?
    ensures var t := Step(env, id, node, s).value;
      var o := Version(node.kind, env.author, node.created, Body(node.content, cells));
      && t.names == s.names[id := Resolved(c, c)]
      && t.owned == s.owned + [(c, id)]
      && t.graph.older == s.graph.older
      && if c in s.graph.objects then
           t.graph == s.graph && t.pending == s.pending && t.report == s.report + [Report(id, Unchanged, c)]
         else
           && t.graph.objects == s.graph.objects[c := o]
           && t.pending == s.pending + [c] && t.report == s.report + [Report(id, New, c)]
  {
  }

  /** A revision: the new version, and an edge from it to the version it replaces,
      both the builder's and of the source's date; in this order. */
  lemma {:induction false} Revision(
      env: Env, id: Id, node: Node, s: State, p: Cid, cells: seq<Cell>, o: Object, c: Cid, edge: Object, e: Cid)
    requires Composes(env, id, node, s, Some(p), cells) && Step(env, id, node, s).Ok?
    requires p in s.graph.objects && s.graph.objects[p].Version? && s.graph.objects[p].body != Body(node.content, cells)
    requires o == Version(node.kind, env.author, node.created, Body(node.content, cells)) && c == env.identify(o)
    requires edge == Supersedes(env.author, node.created, c, p) && e == env.identify(edge)
    requires c !in s.graph.objects && e !in s.graph.objects && e != c
    ensures var t := Step(env, id, node, s).value;
      && t.graph.objects == s.graph.objects[c := o][e := edge]
      && t.graph.older == s.graph.older[c := (if c in s.graph.older then s.graph.older[c] else {}) + {p}]
      && t.pending == s.pending + [c, e] && t.owned == s.owned + [(c, id), (e, id)]
      && id in t.names && t.names == s.names[id := t.names[id]] && t.names[id].cid == c
      && t.report == s.report + [Report(id, if env.felicitous(t.graph, e) then Revised else Proposed, c)]
  {
    assert s.pending + [c] + [e] == s.pending + [c, e];
    assert s.owned + [(c, id)] + [(e, id)] == s.owned + [(c, id), (e, id)];
  }

  /** One of which the version or the edge is held already adds only the other. */
  lemma {:induction false} RevisionHeld(
      env: Env, id: Id, node: Node, s: State, p: Cid, cells: seq<Cell>, o: Object, c: Cid, edge: Object, e: Cid)
    requires Composes(env, id, node, s, Some(p), cells) && Step(env, id, node, s).Ok?
    requires p in s.graph.objects && s.graph.objects[p].Version? && s.graph.objects[p].body != Body(node.content, cells)
    requires o == Version(node.kind, env.author, node.created, Body(node.content, cells)) && c == env.identify(o)
    requires edge == Supersedes(env.author, node.created, c, p) && e == env.identify(edge) && e != c
    ensures var t := Step(env, id, node, s).value;
      && t.owned == s.owned + [(c, id), (e, id)] && id in t.names && t.names[id].cid == c
      && t.report == s.report + [Report(id, if env.felicitous(t.graph, e) then Revised else Proposed, c)]
      && (c in s.graph.objects && e in s.graph.objects ==> t.graph == s.graph && t.pending == s.pending)
      && (c in s.graph.objects && e !in s.graph.objects ==>
            t.graph.objects == s.graph.objects[e := edge] && t.pending == s.pending + [e])
      && (c !in s.graph.objects && e in s.graph.objects ==>
            t.graph.objects == s.graph.objects[c := o] && t.graph.older == s.graph.older
              && t.pending == s.pending + [c])
  {
    assert s.owned + [(c, id)] + [(e, id)] == s.owned + [(c, id), (e, id)];
  }

  // ------------------------------------------------------------- when a step fails

  ghost predicate CannotFill(env: Env, id: Id, node: Node, s: State, prior: Option<Cid>, e: BuildError) {
    PriorOf(env.lock, id, node) == Ok(prior) && Cells(node.slots, s.names, PriorCells(s.graph, prior)) == Err(e)
  }

  /** Held, but as no version of the node's kind. */
  ghost predicate OtherKind(node: Node, g: Held, p: Cid) {
    p in g.objects && (g.objects[p].Version? ==> g.objects[p].kind != node.kind)
  }

  /** The first thing wrong, in the order things are looked at. */
  lemma {:induction false} StepFails(env: Env, id: Id, node: Node, s: State)
    ensures id in env.lock && env.lock[id].cid.None? ==> Step(env, id, node, s) == Err(BadLock(id))
    ensures forall prior, e :: CannotFill(env, id, node, s, prior, e) ==> Step(env, id, node, s) == Err(e)
    ensures forall p, cells :: Composes(env, id, node, s, Some(p), cells) && p !in s.graph.objects ==>
              Step(env, id, node, s) == Err(NotHeld(id, p))
    ensures forall p, cells :: Composes(env, id, node, s, Some(p), cells) && OtherKind(node, s.graph, p) ==>
              Step(env, id, node, s) == Err(WrongKind(id, p))
  {
  }

  /** What would be published is refused when the graph does not accept it. */
  lemma {:induction false} StepRefused(
      env: Env, id: Id, node: Node, s: State, prior: Option<Cid>, cells: seq<Cell>, o: Object)
    requires Composes(env, id, node, s, prior, cells)
    requires prior.Some? ==> prior.value in s.graph.objects && s.graph.objects[prior.value].Version?
                             && s.graph.objects[prior.value].kind == node.kind
                             && s.graph.objects[prior.value].body != Body(node.content, cells)
    requires o == Version(node.kind, env.author, node.created, Body(node.content, cells))
    requires env.identify(o) !in s.graph.objects && !env.accepts(s.graph, o)
    ensures Step(env, id, node, s) == Err(Refused(env.identify(o)))
  {
  }

  lemma {:induction false} EdgeRefused(
      env: Env, id: Id, node: Node, s: State, p: Cid, cells: seq<Cell>, o: Object, c: Cid, edge: Object, g: Held)
    requires Composes(env, id, node, s, Some(p), cells) && p in s.graph.objects && s.graph.objects[p].Version?
    requires s.graph.objects[p].kind == node.kind && s.graph.objects[p].body != Body(node.content, cells)
    requires o == Version(node.kind, env.author, node.created, Body(node.content, cells)) && c == env.identify(o)
    requires c in s.graph.objects || env.accepts(s.graph, o)
    requires g == if c in s.graph.objects then s.graph else s.graph.(objects := s.graph.objects[c := o])
    requires edge == Supersedes(env.author, node.created, c, p)
    requires env.identify(edge) !in g.objects && !env.accepts(g, edge)
    ensures Step(env, id, node, s) == Err(Refused(env.identify(edge)))
  {
  }

  // --------------------------------------------------------------------- lineages

  /** `y` is the least of what `x` supersedes. */
  ghost predicate LeastOlder(g: Held, x: Cid, y: Cid) {
    x in g.older && y in g.older[x] && forall z :: z in g.older[x] ==> z == y || Less(y, z)
  }

  lemma {:induction false} PreviousIsLeast(g: Held, x: Cid)
    ensures Previous(g, x).None? <==> (x in g.older ==> g.older[x] == {})
    ensures forall y :: Previous(g, x) == Some(y) <==> LeastOlder(g, x, y)
  {
    forall y ensures Previous(g, x) == Some(y) <==> LeastOlder(g, x, y) {
      if LeastOlder(g, x, y) && Previous(g, x).value != y {
        LessAsymmetric(y, Previous(g, x).value);
      }
    }
  }

  /** The versions a walk back passes. */
  ghost function Passed(g: Held, at: Cid, seen: set<Cid>): seq<Cid>
    decreases g.older.Keys - seen
  {
    if at in seen then [at]
    else
      match Previous(g, at)
      case None => [at]
      case Some(next) => [at] + Passed(g, next, seen + {at})
  }

  /** A genesis is where going back to the least older version ends: at a version
      that supersedes nothing, or where one passed comes round again. */
  lemma {:induction false} GenesisEnds(g: Held, at: Cid) returns (p: seq<Cid>)
    ensures p != [] && p[0] == at && Last(p) == Walk(g, at, {})
    ensures forall i :: 0 <= i < |p| - 1 ==> LeastOlder(g, p[i], p[i + 1])
    ensures Last(p) in Init(p) || (Last(p) in g.older ==> g.older[Last(p)] == {})
  {
    p := WalkEnds(g, [], at, {});
    assert [] + [at] == [at];
    forall i | 0 <= i < |p| - 1 ensures LeastOlder(g, p[i], p[i + 1]) {
      PreviousIsLeast(g, p[i]);
    }
    PreviousIsLeast(g, Last(p));
  }

  /** What `c` supersedes does not matter to a walk that does not pass it. */
  lemma {:induction false} WalkApart(g: Held, h: Held, c: Cid, at: Cid, seen: set<Cid>)
    requires forall x :: x != c ==> Previous(g, x) == Previous(h, x)
    requires c !in Passed(g, at, seen) && at != c
    ensures Walk(h, at, seen) == Walk(g, at, seen)
    decreases g.older.Keys - seen
  {
    if at !in seen {
      match Previous(g, at)
      case None =>
      case Some(next) =>
        assert Passed(g, at, seen) == [at] + Passed(g, next, seen + {at});
        PassedFirst(g, next, seen + {at});
        WalkApart(g, h, c, next, seen + {at});
    }
  }

  lemma {:induction false} PassedFirst(g: Held, at: Cid, seen: set<Cid>)
    ensures at in Passed(g, at, seen)
  {
  }

  /** The lineage of a revision: what the lock says, and otherwise where the replaced
      version's lineage began. */
  lemma {:induction false} RevisionLineage(
      env: Env, id: Id, node: Node, s: State, p: Cid, cells: seq<Cell>, o: Object, c: Cid, edge: Object, e: Cid)
    requires Composes(env, id, node, s, Some(p), cells) && Step(env, id, node, s).Ok?
    requires p in s.graph.objects && s.graph.objects[p].Version? && s.graph.objects[p].body != Body(node.content, cells)
    requires o == Version(node.kind, env.author, node.created, Body(node.content, cells)) && c == env.identify(o)
    requires edge == Supersedes(env.author, node.created, c, p) && e == env.identify(edge)
    requires c !in s.graph.objects && e !in s.graph.objects && e != c && c !in s.graph.older
    ensures var t := Step(env, id, node, s).value;
      && t.graph.older == s.graph.older[c := {p}] && Previous(t.graph, c) == Some(p)
      && id in t.names
      && (id in env.lock && env.lock[id].genesis.Some? ==> t.names[id].genesis == env.lock[id].genesis.value)
      && (!(id in env.lock && env.lock[id].genesis.Some?) && c !in Passed(s.graph, p, {}) ==>
            t.names[id].genesis == Walk(s.graph, p, {}))
  {
    Revision(env, id, node, s, p, cells, o, c, edge, e);
    var t := Step(env, id, node, s).value;
    var none: set<Cid> := {};
    assert none + {p} == {p};
    assert t.graph.older == s.graph.older[c := {p}];
    assert LeastOlder(t.graph, c, p);
    PreviousIsLeast(t.graph, c);
    if !(id in env.lock && env.lock[id].genesis.Some?) {
      assert t.names[id].genesis == Walk(t.graph, p, {});
      if c !in Passed(s.graph, p, {}) {
        PassedFirst(s.graph, p, {});
        forall x | x != c ensures Previous(s.graph, x) == Previous(t.graph, x) {
        }
        WalkApart(s.graph, t.graph, c, p, {});
        assert Walk(t.graph, p, {}) == Walk(s.graph, p, {});
      }
    }
  }

  /** The lineage of a kept version, likewise. */
  lemma {:induction false} KeptLineage(env: Env, id: Id, node: Node, s: State, p: Cid, cells: seq<Cell>)
    requires Composes(env, id, node, s, Some(p), cells) && p in s.graph.objects
    requires s.graph.objects[p].Version? && s.graph.objects[p].kind == node.kind
    requires s.graph.objects[p].body == Body(node.content, cells)
    ensures var r := Step(env, id, node, s);
      && r.Ok? && id in r.value.names
      && r.value.names[id].genesis ==
         if id in env.lock && env.lock[id].genesis.Some? then env.lock[id].genesis.value else Walk(s.graph, p, {})
  {
  }

  // ---------------------------------------------------------------- a whole build

  /** The node is built as what its source says, filled from these names and from
      what its prior version, which is held, had recorded. */
  ghost predicate BuiltAs(env: Env, x: Id, node: Node, names: Names, g: Held) {
    && PriorOf(env.lock, x, node).Ok? && x in names
    && var prior := PriorOf(env.lock, x, node).value;
    && HeldVersion(prior, g)
    && KeptBy(node, names, PriorCells(g, prior), names[x].cid, g)
  }

  ghost predicate HeldVersion(prior: Option<Cid>, g: Held) {
    prior.Some? ==> prior.value in g.objects && g.objects[prior.value].Version?
  }

  lemma {:induction false} BuiltNow(env: Env, x: Id, node: Node, s: State)
    requires Step(env, x, node, s).Ok? && Untwinned(env, x, node, s) && x !in s.names
    ensures BuiltAs(env, x, node, Step(env, x, node, s).value.names, Step(env, x, node, s).value.graph)
  {
    var t, before := Step(env, x, node, s).value, PriorOf(env.lock, x, node).value;
    StepSteps(env, x, node, s);
    var prior := StepKeeps(env, x, node, s);
    CellsExtend(node.slots, s.names, t.names, prior);
    PriorStays(before, s.graph, t.graph);
  }

  lemma {:induction false} PriorStays(prior: Option<Cid>, g: Held, h: Held)
    requires HeldVersion(prior, g) && Grows(g, h)
    ensures HeldVersion(prior, h) && PriorCells(h, prior) == PriorCells(g, prior)
  {
  }

  lemma {:induction false} BuiltStays(env: Env, x: Id, node: Node, a: Names, b: Names, g: Held, h: Held)
    requires BuiltAs(env, x, node, a, g) && Extends(a, b) && Grows(g, h)
    ensures BuiltAs(env, x, node, b, h)
  {
    var prior := PriorOf(env.lock, x, node).value;
    PriorStays(prior, g, h);
    CellsExtend(node.slots, a, b, PriorCells(g, prior));
  }

  lemma {:induction false} StepsFill(env: Env, nodes: Nodes, order: seq<Id>, graph: Held, x: Id)
    requires Distinct(order) && (forall id :: id in order ==> id in nodes) && x in order
    requires Steps(env, nodes, order, Start(graph)).Ok? && AllUntwinned(env, nodes, order, Start(graph))
    ensures var t := Steps(env, nodes, order, Start(graph)).value; BuiltAs(env, x, nodes[x], t.names, t.graph)
    decreases |order|
  {
    Unsnoc(order);
    assert Distinct(Init(order)) && Last(order) !in Init(order);
    var id, s := Last(order), Steps(env, nodes, Init(order), Start(graph)).value;
    StepsGrow(env, nodes, Init(order), graph);
    if x == id {
      BuiltNow(env, x, nodes[x], s);
    } else {
      StepsFill(env, nodes, Init(order), graph, x);
      StepSteps(env, id, nodes[id], s);
      var t := Step(env, id, nodes[id], s).value;
      BuiltStays(env, x, nodes[x], s.names, t.names, s.graph, t.graph);
    }
  }

  /** What an object of a node holds: the content, and each reference filled from
      these names and what the prior version held. */
  ghost predicate ObjectOf(env: Env, x: Id, node: Node, names: Names, g: Held, cid: Cid) {
    && cid in g.objects && g.objects[cid].Version? && g.objects[cid].kind == node.kind
    && g.objects[cid].body.content == node.content && |g.objects[cid].body.cells| == |node.slots|
    && forall i :: 0 <= i < |node.slots| ==>
         SlotHeld(env, x, node, node.slots[i], names, g, g.objects[cid].body.cells[i])
  }

  ghost predicate SlotHeld(env: Env, x: Id, node: Node, slot: Slot, names: Names, g: Held, cell: Cell) {
    match PriorOf(env.lock, x, node)
    case Err(_) => false
    case Ok(None) => FilledAs(slot, names, [], cell)
    case Ok(Some(p)) => p in g.objects && g.objects[p].Version? && FilledAs(slot, names, g.objects[p].body.cells, cell)
  }

  lemma {:induction false} BuiltHolds(env: Env, x: Id, node: Node, names: Names, g: Held)
    requires BuiltAs(env, x, node, names, g)
    ensures ObjectOf(env, x, node, names, g, names[x].cid)
  {
    var before := PriorCells(g, PriorOf(env.lock, x, node).value);
    var cells := g.objects[names[x].cid].body.cells;
    forall i | 0 <= i < |node.slots| ensures SlotHeld(env, x, node, node.slots[i], names, g, cells[i]) {
      CellsAt(node.slots, names, before, i);
      CellFilled(node.slots[i], names, before);
    }
  }

  /** After a build, each name's object is of what its source says. */
  lemma {:induction false} BuiltFilled(env: Env, nodes: Nodes, order: seq<Id>, graph: Held, built: Built, x: Id)
    requires BuildsInto(env, nodes, order, graph, built) && AllUntwinned(env, nodes, order, Start(graph)) && x in nodes
    ensures x in built.lock && built.lock[x].cid.Some?
    ensures ObjectOf(env, x, nodes[x], NamesOf(env, nodes, order, graph), built.graph, built.lock[x].cid.value)
  {
    assert x in order;
    StepsFill(env, nodes, order, graph, x);
    BuiltHolds(env, x, nodes[x], NamesOf(env, nodes, order, graph), built.graph);
  }

  lemma {:induction false} TrackedAs(slot: Slot, names: Names, cell: Cell, d: Id)
    requires slot == Tracking(Named(d), None) && FilledAs(slot, names, [], cell)
    ensures d in names && cell == Tracked(names[d].genesis, Some(names[d].cid))
  {
  }

  /** So an item that tracks a node, names no version of it and had none recorded,
      holds the node's lineage and the version this build gave it. */
  lemma {:induction false} TracksCurrent(
      env: Env, nodes: Nodes, order: seq<Id>, graph: Held, built: Built, x: Id, i: nat, d: Id)
    requires BuildsInto(env, nodes, order, graph, built) && AllUntwinned(env, nodes, order, Start(graph))
    requires x in nodes && i < |nodes[x].slots| && nodes[x].slots[i] == Tracking(Named(d), None)
    requires PriorOf(env.lock, x, nodes[x]) == Ok(None)
    ensures x in built.lock && d in built.lock && built.lock[x].cid.Some? && built.lock[d].genesis.Some?
    ensures HoldsCell(built.graph, built.lock[x].cid.value, i, Tracked(built.lock[d].genesis.value, built.lock[d].cid))
  {
    BuiltFilled(env, nodes, order, graph, built, x);
    var names, cid := NamesOf(env, nodes, order, graph), built.lock[x].cid.value;
    var cell := built.graph.objects[cid].body.cells[i];
    assert SlotHeld(env, x, nodes[x], nodes[x].slots[i], names, built.graph, cell);
    TrackedAs(nodes[x].slots[i], names, cell, d);
  }

  ghost predicate HoldsCell(g: Held, cid: Cid, i: nat, cell: Cell) {
    && cid in g.objects && g.objects[cid].Version? && i < |g.objects[cid].body.cells|
    && g.objects[cid].body.cells[i] == cell
  }
}
