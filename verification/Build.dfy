/** The incremental build: names become identifiers, dependencies first, and a
    lock remembers what each name was built as. */
module Build {
  import opened Hashing
  import opened Seqs
  import opened Ordering
  import opened Wrappers
  import opened Graph

  type Cid = Bytes

  datatype Kind = Doc | Claim

  /** Where a reference points: an identifier, a node of the tree, or elsewhere. */
  datatype Target = Fixed(cid: Cid) | Named(id: Id) | Import(reference: Bytes)

  /** A reference as a source makes it: to one version, to a lineage, or to a
      lineage read at some version. */
  datatype Slot =
    | ObjectBound(target: Target)
    | LineageBound(target: Target)
    | Tracking(target: Target, at: Option<Target>)

  /** A reference as an object makes it. */
  datatype Cell = Plain(cid: Cid) | Tracked(lineage: Cid, at: Option<Cid>)

  datatype Body = Body(content: Bytes, cells: seq<Cell>)

  datatype Object =
    | Version(kind: Kind, author: Bytes, created: Bytes, body: Body)
    | Supersedes(author: Bytes, created: Bytes, newer: Cid, older: Cid)

  datatype Node = Node(kind: Kind, content: Bytes, slots: seq<Slot>, created: Bytes, supersedes: Option<Cid>)

  datatype Resolved = Resolved(cid: Cid, genesis: Cid)

  type Names = map<Id, Resolved>

  datatype BuildError =
    | NotBuilt(id: Id)
    | NotACorpus(reference: Bytes)
    | BadLock(id: Id)
    | NotHeld(id: Id, prior: Cid)
    | WrongKind(id: Id, prior: Cid)
    | Refused(cid: Cid)
    | NothingDeclares(id: Id, target: Id)
    | Cyclic(cycle: seq<Id>)
    | TreeRefused

  // ---------------------------------------------------------------- substitution

  /** The `at` a prior version recorded for the first item tracking `lineage`. */
  function ReadAt(prior: seq<Cell>, lineage: Cid): Option<Cid> {
    if prior == [] then None
    else if prior[0].Tracked? && prior[0].lineage == lineage then prior[0].at
    else ReadAt(prior[1..], lineage)
  }

  function CidOf(t: Target, genesis: bool, names: Names): Result<Cid, BuildError> {
    match t
    case Fixed(cid) => Ok(cid)
    case Named(id) =>
      if id !in names then Err(NotBuilt(id)) else Ok(if genesis then names[id].genesis else names[id].cid)
    case Import(reference) => Err(NotACorpus(reference))
  }

  /** An item that tracks a lineage carries the version its author read: the one
      it names, or the one recorded before, or the current one. */
  function CellOf(slot: Slot, names: Names, prior: seq<Cell>): (r: Result<Cell, BuildError>)
    ensures r.Ok? ==> (r.value.Tracked? <==> slot.Tracking?) && (r.value.Tracked? ==> r.value.at.Some?)
  {
    match slot
    case ObjectBound(t) =>
      (match CidOf(t, false, names) case Ok(cid) => Ok(Plain(cid)) case Err(e) => Err(e))
    case LineageBound(t) =>
      (match CidOf(t, true, names) case Ok(cid) => Ok(Plain(cid)) case Err(e) => Err(e))
    case Tracking(t, at) =>
      match CidOf(t, true, names)
      case Err(e) => Err(e)
      case Ok(lineage) =>
        var recorded := ReadAt(prior, lineage);
        if at.None? && recorded.Some? then Ok(Tracked(lineage, recorded))
        else
          match CidOf(if at.Some? then at.value else t, false, names)
          case Ok(cid) => Ok(Tracked(lineage, Some(cid)))
          case Err(e) => Err(e)
  }

  /** Every slot filled in order, or the first that cannot be. */
  function Cells(slots: seq<Slot>, names: Names, prior: seq<Cell>): (r: Result<seq<Cell>, BuildError>)
    ensures r.Ok? ==> |r.value| == |slots|
    decreases |slots|
  {
    if slots == [] then Ok([])
    else
      match Cells(Init(slots), names, prior)
      case Err(e) => Err(e)
      case Ok(cells) =>
        match CellOf(Last(slots), names, prior)
        case Err(e) => Err(e)
        case Ok(cell) => Ok(cells + [cell])
  }

  method Substitute(node: Node, names: Names, prior: seq<Cell>) returns (r: Result<seq<Cell>, BuildError>)
    ensures r == Cells(node.slots, names, prior)
  {
    var cells: seq<Cell> := [];
    for i := 0 to |node.slots|
      invariant Cells(node.slots[..i], names, prior) == Ok(cells)
    {
      assert Init(node.slots[..i + 1]) == node.slots[..i];
      var cell := CellOf(node.slots[i], names, prior);
      if cell.Err? {
        CellsFailEarly(node.slots, names, prior, i + 1);
        return Err(cell.error);
      }
      cells := cells + [cell.value];
    }
    assert node.slots[..|node.slots|] == node.slots;
    r := Ok(cells);
  }

  lemma {:induction false} CellsFailEarly(slots: seq<Slot>, names: Names, prior: seq<Cell>, i: nat)
    requires i <= |slots| && Cells(slots[..i], names, prior).Err?
    ensures Cells(slots, names, prior) == Cells(slots[..i], names, prior)
    decreases |slots|
  {
    if i == |slots| {
      assert slots[..i] == slots;
    } else {
      assert Init(slots)[..i] == slots[..i];
      CellsFailEarly(Init(slots), names, prior, i);
    }
  }

  lemma {:induction false} CellsAt(slots: seq<Slot>, names: Names, prior: seq<Cell>, i: nat)
    requires Cells(slots, names, prior).Ok? && i < |slots|
    ensures CellOf(slots[i], names, prior) == Ok(Cells(slots, names, prior).value[i])
    decreases |slots|
  {
    if i < |slots| - 1 {
      CellsAt(Init(slots), names, prior, i);
    }
  }

  lemma {:induction false} CellsFrom(slots: seq<Slot>, names: Names, prior: seq<Cell>, cells: seq<Cell>)
    requires |cells| == |slots| && forall i :: 0 <= i < |slots| ==> CellOf(slots[i], names, prior) == Ok(cells[i])
    ensures Cells(slots, names, prior) == Ok(cells)
    decreases |slots|
  {
    if slots != [] {
      CellsFrom(Init(slots), names, prior, Init(cells));
      Unsnoc(cells);
    }
  }

  // ------------------------------------------------------------- what slots rely on

  /** Names whose version the slot's object carries. */
  predicate NeedsVersion(slot: Slot, id: Id) {
    match slot
    case ObjectBound(t) => t == Named(id)
    case LineageBound(_) => false
    case Tracking(_, at) => at == Some(Named(id))
  }

  /** Names whose lineage the slot's object carries. */
  predicate NeedsLineage(slot: Slot, id: Id) {
    match slot
    case ObjectBound(_) => false
    case LineageBound(t) => t == Named(id)
    case Tracking(t, _) => t == Named(id)
  }

  ghost predicate SlotAgrees(slot: Slot, a: Names, b: Names) {
    && (forall id :: NeedsVersion(slot, id) && id in a ==> id in b && a[id].cid == b[id].cid)
    && (forall id :: NeedsLineage(slot, id) && id in a ==> id in b && a[id].genesis == b[id].genesis)
  }

  /** An item that names no version of its own is as the first item tracking its
      lineage. */
  ghost predicate Steady(slots: seq<Slot>, cells: seq<Cell>) {
    |slots| == |cells| && forall i :: 0 <= i < |slots| ==> SteadyAt(slots[i], cells[i], cells)
  }

  ghost predicate SteadyAt(slot: Slot, cell: Cell, cells: seq<Cell>) {
    slot.Tracking? && slot.at.None? && cell.Tracked? ==> ReadAt(cells, cell.lineage) == cell.at
  }

  lemma {:induction false} CellAgain(slot: Slot, a: Names, b: Names, before: seq<Cell>, cells: seq<Cell>)
    requires CellOf(slot, a, before).Ok? && SlotAgrees(slot, a, b)
    requires SteadyAt(slot, CellOf(slot, a, before).value, cells)
    ensures CellOf(slot, b, cells) == CellOf(slot, a, before)
  {
    match slot
    case ObjectBound(t) =>
      if t.Named? {
        assert NeedsVersion(slot, t.id);
      }
    case LineageBound(t) =>
      if t.Named? {
        assert NeedsLineage(slot, t.id);
      }
    case Tracking(t, at) =>
      if t.Named? {
        assert NeedsLineage(slot, t.id);
      }
      if at.Some? && at.value.Named? {
        assert NeedsVersion(slot, at.value.id);
      }
  }

  /** Filled again, from names that agree and from their own outcome, slots come
      out the same; and only steady ones do. */
  lemma {:induction false} CellsAgain(slots: seq<Slot>, a: Names, b: Names, before: seq<Cell>, cells: seq<Cell>)
    requires Cells(slots, a, before) == Ok(cells)
    requires forall i :: 0 <= i < |slots| ==> SlotAgrees(slots[i], a, b)
    ensures Cells(slots, b, cells) == Ok(cells) <==> Steady(slots, cells)
  {
    if Steady(slots, cells) {
      forall i | 0 <= i < |slots| ensures CellOf(slots[i], b, cells) == Ok(cells[i]) {
        CellsAt(slots, a, before, i);
        CellAgain(slots[i], a, b, before, cells);
      }
      CellsFrom(slots, b, cells, cells);
    }
    if Cells(slots, b, cells) == Ok(cells) {
      forall i | 0 <= i < |slots| ensures SteadyAt(slots[i], cells[i], cells) {
        CellsAt(slots, b, cells, i);
        if cells[i].Tracked? {
          HeldAt(slots, a, before, cells, i, cells[i].lineage);
        }
      }
    }
  }

  /** What slots were filled with records a version for each lineage tracked. */
  lemma {:induction false} HeldAt(
      slots: seq<Slot>, names: Names, prior: seq<Cell>, cells: seq<Cell>, i: nat, lineage: Cid)
    requires Cells(slots, names, prior) == Ok(cells) && i < |cells| && cells[i].Tracked? && cells[i].lineage == lineage
    ensures ReadAt(cells, lineage).Some?
  {
    forall j | 0 <= j < |cells| ensures cells[j].Tracked? ==> cells[j].at.Some? {
      CellsAt(slots, names, prior, j);
    }
    RecordedAt(cells, i, lineage);
  }

  lemma {:induction false} RecordedAt(cells: seq<Cell>, i: nat, lineage: Cid)
    requires i < |cells| && cells[i].Tracked? && cells[i].lineage == lineage
    requires forall j :: 0 <= j < |cells| && cells[j].Tracked? ==> cells[j].at.Some?
    ensures ReadAt(cells, lineage).Some?
  {
    if i > 0 {
      RecordedAt(cells[1..], i - 1, lineage);
    }
  }

  /** Items that each track a lineage of their own are steady. */
  lemma {:induction false} SteadyWhenDistinct(slots: seq<Slot>, cells: seq<Cell>)
    requires |slots| == |cells|
    requires forall i, j :: 0 <= i < j < |cells| && cells[i].Tracked? && cells[j].Tracked? ==>
           cells[i].lineage != cells[j].lineage
    ensures Steady(slots, cells)
  {
    forall i | 0 <= i < |slots| ensures SteadyAt(slots[i], cells[i], cells) {
      if cells[i].Tracked? {
        ReadsOwn(cells, i);
      }
    }
  }

  lemma {:induction false} ReadsOwn(cells: seq<Cell>, i: nat)
    requires i < |cells| && cells[i].Tracked?
    requires forall j :: 0 <= j < i && cells[j].Tracked? ==> cells[j].lineage != cells[i].lineage
    ensures ReadAt(cells, cells[i].lineage) == cells[i].at
  {
    if i > 0 {
      ReadsOwn(cells[1..], i - 1);
    }
  }

  /** Two items on one lineage, the second without a version of its own: filled
      again, it takes the first one's. */
  lemma {:induction false} TwiceTracked(id: Id, lineage: Cid, first: Cid, current: Cid)
    returns (slots: seq<Slot>, names: Names, cells: seq<Cell>, again: seq<Cell>)
    requires first != current
    ensures Cells(slots, names, []) == Ok(cells) && Cells(slots, names, cells) == Ok(again) && again != cells
  {
    slots := [Tracking(Named(id), Some(Fixed(first))), Tracking(Named(id), None)];
    names := map[id := Resolved(current, lineage)];
    cells := [Tracked(lineage, Some(first)), Tracked(lineage, Some(current))];
    again := [Tracked(lineage, Some(first)), Tracked(lineage, Some(first))];
    CellsFrom(slots, names, [], cells);
    CellsFrom(slots, names, cells, again);
    assert again[1] != cells[1];
  }

  // -------------------------------------------------------------------- the graph

  /** Objects held, and what each identifier supersedes. */
  datatype Held = Held(objects: map<Cid, Object>, older: map<Cid, set<Cid>>)

  function Inserted(g: Held, cid: Cid, o: Object): Held {
    match o
    case Version(_, _, _, _) => g.(objects := g.objects[cid := o])
    case Supersedes(_, _, newer, old_) =>
      g.(objects := g.objects[cid := o],
         older := g.older[newer := (if newer in g.older then g.older[newer] else {}) + {old_}])
  }

  /** The lowest identifier `at` supersedes. */
  function Previous(g: Held, at: Cid): Option<Cid> {
    if at in g.older && g.older[at] != {} then Some(Least(g.older[at])) else None
  }

  /** Back along the lowest edges until there is none, or one comes round again. */
  function Walk(g: Held, at: Cid, seen: set<Cid>): Cid
    decreases g.older.Keys - seen
  {
    if at in seen then at
    else
      match Previous(g, at)
      case None => at
      case Some(next) => Walk(g, next, seen + {at})
  }

  method Genesis(g: Held, cid: Cid) returns (at: Cid)
    ensures at == Walk(g, cid, {})
  {
    at := cid;
    var seen: set<Cid> := {};
    while at !in seen
      invariant Walk(g, at, seen) == Walk(g, cid, {})
      decreases g.older.Keys - seen
    {
      var next := Previous(g, at);
      if next.None? {
        return;
      }
      seen := seen + {at};
      at := next.value;
    }
  }

  ghost predicate WalksTo(g: Held, p: seq<Cid>) {
    p != [] && forall i :: 0 <= i < |p| - 1 ==> Previous(g, p[i]) == Some(p[i + 1])
  }

  /** The walk ends at a version that supersedes nothing, or where a cycle of
      versions closes. */
  lemma {:induction false} WalkEnds(g: Held, before: seq<Cid>, at: Cid, seen: set<Cid>) returns (p: seq<Cid>)
    requires WalksTo(g, before + [at]) && forall c :: c in seen <==> c in before
    ensures WalksTo(g, p) && before + [at] <= p && Last(p) == Walk(g, at, seen)
    ensures Previous(g, Last(p)).None? || Last(p) in Init(p)
    decreases g.older.Keys - seen
  {
    p := before + [at];
    if at !in seen {
      match Previous(g, at)
      case None =>
      case Some(next) =>
        assert WalksTo(g, p + [next]);
        p := WalkEnds(g, p, next, seen + {at});
    }
  }

  // --------------------------------------------------------------------- the build

  /** What the lock says of a name: identifiers, where they read as such. */
  datatype LockEntry = LockEntry(cid: Option<Cid>, genesis: Option<Cid>)

  type Lock = map<Id, LockEntry>

  /** Who builds, against which lock; how objects are identified, and what the
      graph admits. */
  datatype Env = Env(
    author: Bytes,
    lock: Lock,
    identify: Object -> Cid,
    accepts: (Held, Object) -> bool,
    felicitous: (Held, Cid) -> bool,
    valid: Held -> bool)

  datatype Status = New | Revised | Proposed | Unchanged

  datatype Report = Report(id: Id, status: Status, cid: Cid)

  datatype State = State(graph: Held, names: Names, pending: seq<Cid>, owned: seq<(Cid, Id)>, report: seq<Report>)

  function Start(graph: Held): State {
    State(graph, map[], [], [], [])
  }

  /** The version a node revises: the one the lock records, or the one its source
      names. */
  function PriorOf(lock: Lock, id: Id, node: Node): Result<Option<Cid>, BuildError> {
    if id !in lock then Ok(node.supersedes)
    else
      match lock[id].cid
      case Some(cid) => Ok(Some(cid))
      case None => Err(BadLock(id))
  }

  function GenesisOf(lock: Lock, id: Id, prior: Cid, graph: Held): Cid {
    if id in lock && lock[id].genesis.Some? then lock[id].genesis.value else Walk(graph, prior, {})
  }

  function PriorCells(graph: Held, prior: Option<Cid>): seq<Cell> {
    if prior.Some? && prior.value in graph.objects && graph.objects[prior.value].Version? then
      graph.objects[prior.value].body.cells
    else []
  }

  /** An object offered to the graph unless it is held already. */
  function Offer(env: Env, o: Object, id: Id, s: State): Result<State, BuildError> {
    var cid := env.identify(o);
    if cid in s.graph.objects then Ok(s.(owned := s.owned + [(cid, id)]))
    else if !env.accepts(s.graph, o) then Err(Refused(cid))
    else Ok(s.(graph := Inserted(s.graph, cid, o), pending := s.pending + [cid], owned := s.owned + [(cid, id)]))
  }

  function Settle(id: Id, r: Resolved, status: Status, s: State): State {
    s.(names := s.names[id := r], report := s.report + [Report(id, status, r.cid)])
  }

  /** A version published, superseding the prior one if there is one. */
  function Publish(env: Env, id: Id, node: Node, body: Body, prior: Option<Cid>, s: State): Result<State, BuildError> {
    var o := Version(node.kind, env.author, node.created, body);
    var cid := env.identify(o);
    match Offer(env, o, id, s)
    case Err(e) => Err(e)
    case Ok(s1) =>
      match prior
      case None => Ok(Settle(id, Resolved(cid, cid), if cid in s.graph.objects then Unchanged else New, s1))
      case Some(p) =>
        var edge := Supersedes(env.author, node.created, cid, p);
        match Offer(env, edge, id, s1)
        case Err(e) => Err(e)
        case Ok(s2) =>
          var status := if env.felicitous(s2.graph, env.identify(edge)) then Revised else Proposed;
          Ok(Settle(id, Resolved(cid, GenesisOf(env.lock, id, p, s2.graph)), status, s2))
  }

  /** One node: the version held if its body is what the source now says, or a new
      one. */
  function Step(env: Env, id: Id, node: Node, s: State): Result<State, BuildError> {
    match PriorOf(env.lock, id, node)
    case Err(e) => Err(e)
    case Ok(prior) =>
      match Cells(node.slots, s.names, PriorCells(s.graph, prior))
      case Err(e) => Err(e)
      case Ok(cells) =>
        var body := Body(node.content, cells);
        if prior.None? then Publish(env, id, node, body, prior, s)
        else if prior.value !in s.graph.objects then Err(NotHeld(id, prior.value))
        else
          var held := s.graph.objects[prior.value];
          if !held.Version? || held.kind != node.kind then Err(WrongKind(id, prior.value))
          else if held.body == body then
            Ok(Settle(id, Resolved(prior.value, GenesisOf(env.lock, id, prior.value, s.graph)), Unchanged, s))
          else Publish(env, id, node, body, prior, s)
  }

  type Nodes = map<Id, Node>

  function Steps(env: Env, nodes: Nodes, order: seq<Id>, s: State): Result<State, BuildError>
    requires forall id :: id in order ==> id in nodes
    decreases |order|
  {
    if order == [] then Ok(s)
    else
      Unsnoc(order);
      match Steps(env, nodes, Init(order), s)
      case Err(e) => Err(e)
      case Ok(s1) => Step(env, Last(order), nodes[Last(order)], s1)
  }

  class Build {
    const env: Env
    var graph: Held
    var names: Names
    var pending: seq<Cid>
    var owned: seq<(Cid, Id)>
    var report: seq<Report>

    constructor (env: Env, graph: Held)
      ensures this.env == env && Now() == Start(graph)
    {
      this.env := env;
      this.graph := graph;
      names, pending, owned, report := map[], [], [], [];
    }

    ghost function Now(): State
      reads this
    {
      State(graph, names, pending, owned, report)
    }

    /** Takes an object in, unless it is there already or the graph will not have it. */
    method Admit(o: Object, id: Id) returns (r: Result<Cid, BuildError>)
      modifies this
      ensures match Offer(env, o, id, old(Now()))
              case Ok(s) => Now() == s && r == Ok(env.identify(o))
              case Err(e) => r == Err(e)
    {
      var cid := env.identify(o);
      if cid !in graph.objects {
        if !env.accepts(graph, o) {
          return Err(Refused(cid));
        }
        graph := Inserted(graph, cid, o);
        pending := pending + [cid];
      }
      owned := owned + [(cid, id)];
      r := Ok(cid);
    }

    method Record(id: Id, cid: Cid, genesis: Cid, status: Status)
      modifies this
      ensures Now() == Settle(id, Resolved(cid, genesis), status, old(Now()))
    {
      names := names[id := Resolved(cid, genesis)];
      report := report + [Report(id, status, cid)];
    }

    method LineageOf(id: Id, prior: Cid) returns (genesis: Cid)
      ensures genesis == GenesisOf(env.lock, id, prior, graph)
    {
      if id in env.lock && env.lock[id].genesis.Some? {
        return env.lock[id].genesis.value;
      }
      genesis := Genesis(graph, prior);
    }

    method Node(id: Id, node: Node) returns (r: Result<(), BuildError>)
      modifies this
      ensures match Step(env, id, node, old(Now()))
              case Ok(s) => Now() == s && r.Ok?
              case Err(e) => r == Err(e)
    {
      var prior;
      match PriorOf(env.lock, id, node) {
        case Err(e) => return Err(e);
        case Ok(p) => prior := p;
      }
      var cells := Substitute(node, names, PriorCells(graph, prior));
      if cells.Err? {
        return Err(cells.error);
      }
      var body := Body(node.content, cells.value);
      if prior.Some? {
        if prior.value !in graph.objects {
          return Err(NotHeld(id, prior.value));
        }
        var held := graph.objects[prior.value];
        if !held.Version? || held.kind != node.kind {
          return Err(WrongKind(id, prior.value));
        }
        if held.body == body {
          var genesis := LineageOf(id, prior.value);
          Record(id, prior.value, genesis, Unchanged);
          return Ok(());
        }
      }
      r := PublishVersion(id, node, body, prior);
    }

    method PublishVersion(id: Id, node: Node, body: Body, prior: Option<Cid>) returns (r: Result<(), BuildError>)
      modifies this
      ensures match Publish(env, id, node, body, prior, old(Now()))
              case Ok(s) => Now() == s && r.Ok?
              case Err(e) => r == Err(e)
    {
      var o := Version(node.kind, env.author, node.created, body);
      var alreadyHeld := env.identify(o) in graph.objects;
      var cid := Admit(o, id);
      if cid.Err? {
        return Err(cid.error);
      }
      if prior.None? {
        Record(id, cid.value, cid.value, if alreadyHeld then Unchanged else New);
        return Ok(());
      }
      var edge := Admit(Supersedes(env.author, node.created, cid.value, prior.value), id);
      if edge.Err? {
        return Err(edge.error);
      }
      var status := if env.felicitous(graph, edge.value) then Revised else Proposed;
      var genesis := LineageOf(id, prior.value);
      Record(id, cid.value, genesis, status);
      r := Ok(());
    }
  }
}
