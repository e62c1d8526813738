/** A corpus's generations: replaying the chain behind one, and advancing. */
module Corpus {
  import opened Hashing
  import opened Seqs
  import opened Ordering
  import opened Membership
  import opened Delta
  import opened Wrappers

  type Objects = map<Bytes, Generation>

  datatype ChainError = Missing(cid: Bytes) | OwnAncestor(cid: Bytes)

  // ------------------------------------------------------------- the chain

  /** `chain` is the records from `cid` back to one without a parent. */
  ghost predicate IsChain(objects: Objects, cid: Bytes, chain: seq<Generation>)
    decreases |chain|
  {
    && chain != [] && cid in objects && chain[0] == objects[cid]
    && match chain[0].parent
       case None => |chain| == 1
       case Some(p) => IsChain(objects, p, chain[1..])
  }

  lemma {:induction false} ChainUnique(objects: Objects, cid: Bytes, a: seq<Generation>, b: seq<Generation>)
    requires IsChain(objects, cid, a) && IsChain(objects, cid, b)
    ensures a == b
    decreases |a|
  {
    assert a == [a[0]] + a[1..] && b == [b[0]] + b[1..];
    match a[0].parent {
      case None =>
      case Some(p) => ChainUnique(objects, p, a[1..], b[1..]);
    }
  }

  function Reverse<T>(s: seq<T>): (r: seq<T>)
    ensures |r| == |s|
    ensures forall i :: 0 <= i < |s| ==> r[i] == s[|s| - 1 - i]
  {
    if s == [] then [] else Reverse(s[1..]) + [s[0]]
  }

  /** The identifiers visited so far lead, by parents, from the start to `at`. */
  ghost predicate Walked(
      objects: Objects, start: Bytes, visited: seq<Bytes>, chain: seq<Generation>, at: Option<Bytes>) {
    && |visited| == |chain|
    && (visited == [] ==> at == Some(start))
    && (visited != [] ==> visited[0] == start && at == Last(chain).parent)
    && (forall i :: 0 <= i < |visited| ==> visited[i] in objects && chain[i] == objects[visited[i]])
    && (forall i :: 0 <= i < |visited| - 1 ==> chain[i].parent == Some(visited[i + 1]))
  }

  /** A full chain begins with what was walked and goes on from there. */
  lemma {:induction false} WalkedIsPrefix(
      objects: Objects, start: Bytes, visited: seq<Bytes>, chain: seq<Generation>, at: Option<Bytes>,
      full: seq<Generation>, n: nat)
    requires Walked(objects, start, visited, chain, at) && IsChain(objects, start, full) && n <= |visited|
    ensures n < |visited| ==> n < |full| && IsChain(objects, visited[n], full[n..])
    ensures n == |visited| && at.Some? ==> n < |full| && IsChain(objects, at.value, full[n..])
  {
    if n == 0 {
      assert full[0..] == full;
    } else {
      WalkedIsPrefix(objects, start, visited, chain, at, full, n - 1);
      assert full[n - 1..][1..] == full[n..];
    }
  }

  /** A walk that ran out of parents is the chain. */
  lemma {:induction false} WalkedIsChain(
      objects: Objects, start: Bytes, visited: seq<Bytes>, chain: seq<Generation>, n: nat)
    requires Walked(objects, start, visited, chain, None) && n < |visited|
    ensures IsChain(objects, visited[n], chain[n..])
    decreases |visited| - n
  {
    if n + 1 < |visited| {
      WalkedIsChain(objects, start, visited, chain, n + 1);
      assert chain[n..][1..] == chain[n + 1..];
    }
  }

  /** A repeat on the way means the walk never ends. */
  lemma {:induction false} RepeatHasNoChain(
      objects: Objects, start: Bytes, visited: seq<Bytes>, chain: seq<Generation>, at: Bytes, j: nat,
      full: seq<Generation>)
    requires Walked(objects, start, visited, chain, Some(at)) && j < |visited| && visited[j] == at
    ensures !IsChain(objects, start, full)
  {
    if IsChain(objects, start, full) {
      WalkedIsPrefix(objects, start, visited, chain, Some(at), full, j);
      WalkedIsPrefix(objects, start, visited, chain, Some(at), full, |visited|);
      ChainUnique(objects, at, full[j..], full[|visited|..]);
    }
  }

  /** `cid` is reached from itself by following parents. */
  ghost predicate IsOwnAncestor(objects: Objects, cid: Bytes, through: seq<Bytes>) {
    && through != [] && through[0] == cid
    && (forall i :: 0 <= i < |through| ==> through[i] in objects)
    && (forall i :: 0 <= i < |through| - 1 ==> objects[through[i]].parent == Some(through[i + 1]))
    && objects[Last(through)].parent == Some(cid)
  }

  lemma {:induction false} OwnAncestorHasNone(
      objects: Objects, start: Bytes, visited: seq<Bytes>, chain: seq<Generation>, at: Bytes, j: nat)
    requires Walked(objects, start, visited, chain, Some(at)) && j < |visited| && visited[j] == at
    ensures IsOwnAncestor(objects, at, visited[j..])
    ensures forall full :: !IsChain(objects, start, full)
  {
    forall full ensures !IsChain(objects, start, full) {
      RepeatHasNoChain(objects, start, visited, chain, at, j, full);
    }
  }

  lemma {:induction false} MissingHasNone(
      objects: Objects, start: Bytes, visited: seq<Bytes>, chain: seq<Generation>, at: Bytes)
    requires Walked(objects, start, visited, chain, Some(at)) && at !in objects
    ensures forall full :: !IsChain(objects, start, full)
  {
    forall full ensures !IsChain(objects, start, full) {
      if IsChain(objects, start, full) {
        WalkedIsPrefix(objects, start, visited, chain, Some(at), full, |visited|);
      }
    }
  }

  /** The records behind a generation, newest first; an error when the walk
      meets an identifier again or one that is not held. */
  method Ancestry(objects: Objects, generation: Bytes) returns (r: Result<seq<Generation>, ChainError>)
    ensures r.Ok? ==> IsChain(objects, generation, r.value)
    ensures r.Err? ==> forall chain :: !IsChain(objects, generation, chain)
    ensures r.Err? && r.error.Missing? ==> r.error.cid !in objects
    ensures r.Err? && r.error.OwnAncestor? ==> exists through :: IsOwnAncestor(objects, r.error.cid, through)
  {
    var chain: seq<Generation>, at, seen := [], Some(generation), {};
    ghost var visited: seq<Bytes> := [];
    while at.Some?
      invariant Walked(objects, generation, visited, chain, at)
      invariant forall x :: x in seen <==> x in visited
      invariant seen <= objects.Keys
      decreases objects.Keys - seen, at.Some?
    {
      var cid := at.value;
      if cid in seen {
        ghost var j :| 0 <= j < |visited| && visited[j] == cid;
        OwnAncestorHasNone(objects, generation, visited, chain, cid, j);
        return Err(OwnAncestor(cid));
      }
      if cid !in objects {
        MissingHasNone(objects, generation, visited, chain, cid);
        return Err(Missing(cid));
      }
      seen := seen + {cid};
      at := objects[cid].parent;
      chain := chain + [objects[cid]];
      visited := visited + [cid];
    }
    WalkedIsChain(objects, generation, visited, chain, 0);
    assert chain[0..] == chain;
    r := Ok(chain);
  }

  /** A generation's members: what its chain added, less what it removed,
      replayed from the first record. */
  method MembersOf(objects: Objects, generation: Bytes) returns (r: Result<set<Bytes>, ChainError>)
    ensures r.Ok? <==> exists chain :: IsChain(objects, generation, chain)
    ensures r.Ok? ==> forall chain :: IsChain(objects, generation, chain) ==> r.value == Replay({}, Reverse(chain))
    ensures r.Err? && r.error.Missing? ==> r.error.cid !in objects
    ensures r.Err? && r.error.OwnAncestor? ==> exists through :: IsOwnAncestor(objects, r.error.cid, through)
  {
    var walk := Ancestry(objects, generation);
    if walk.Err? {
      assert !exists full :: IsChain(objects, generation, full);
      return Err(walk.error);
    }
    var chain := walk.value;
    var members: set<Bytes>, order := {}, Reverse(chain);
    for i := 0 to |order|
      invariant members == Replay({}, order[..i])
    {
      members := Extend(members, order[i].added);
      members := Retract(members, order[i].removed);
      assert Init(order[..i + 1]) == order[..i];
    }
    assert order[..|order|] == order;
    forall full | IsChain(objects, generation, full) ensures full == chain {
      ChainUnique(objects, generation, full, chain);
    }
    r := Ok(members);
    assert IsChain(objects, generation, chain);
    assert exists full :: IsChain(objects, generation, full);
  }

  // --------------------------------------------------------- published history

  ghost predicate Held(objects: Objects, ids: seq<Bytes>) {
    forall i :: 0 <= i < |ids| ==> ids[i] in objects
  }

  /** What has been published: generation `i` is `ids[i]`, holds
      `history[i]`, and follows generation `i - 1`. */
  ghost predicate Published(sha: Sha, objects: Objects, ids: seq<Bytes>, history: seq<set<Bytes>>) {
    && |ids| == |history|
    && Held(objects, ids)
    && forall i :: 0 <= i < |ids| ==> PublishedAt(sha, objects, ids, history, i)
  }

  ghost predicate PublishedAt(sha: Sha, objects: Objects, ids: seq<Bytes>, history: seq<set<Bytes>>, i: nat)
    requires i < |ids| == |history|
  {
    var before := if i == 0 then {} else history[i - 1];
    && ids[i] in objects
    && objects[ids[i]].index == i
    && objects[ids[i]].parent == (if i == 0 then None else Some(ids[i - 1]))
    && objects[ids[i]].snapshot == MembershipRoot(sha, FromSet(history[i]))
    && Step(before, objects[ids[i]]) == history[i]
    && before <= history[i]
  }

  ghost function Records(objects: Objects, ids: seq<Bytes>): (r: seq<Generation>)
    requires Held(objects, ids)
    ensures |r| == |ids|
  {
    seq(|ids|, i requires 0 <= i < |ids| => objects[ids[i]])
  }

  /** The chain behind generation `i` is the records up to it, newest first. */
  lemma {:induction false} PublishedChain(sha: Sha, objects: Objects, ids: seq<Bytes>, history: seq<set<Bytes>>, i: nat)
    requires Published(sha, objects, ids, history) && i < |ids|
    ensures IsChain(objects, ids[i], Reverse(Records(objects, ids)[..i + 1]))
  {
    assert PublishedAt(sha, objects, ids, history, i);
    var chain := Reverse(Records(objects, ids)[..i + 1]);
    if i > 0 {
      PublishedChain(sha, objects, ids, history, i - 1);
      assert chain[1..] == Reverse(Records(objects, ids)[..i]);
    }
  }

  /** Replaying it gives exactly the members published then. */
  lemma {:induction false} PublishedReplay(
      sha: Sha, objects: Objects, ids: seq<Bytes>, history: seq<set<Bytes>>, i: nat)
    requires Published(sha, objects, ids, history) && i < |ids|
    ensures Replay({}, Records(objects, ids)[..i + 1]) == history[i]
  {
    assert PublishedAt(sha, objects, ids, history, i);
    var records := Records(objects, ids);
    if i > 0 {
      PublishedReplay(sha, objects, ids, history, i - 1);
    }
    assert Init(records[..i + 1]) == records[..i];
  }

  lemma {:induction false} PublishedGrows(
      sha: Sha, objects: Objects, ids: seq<Bytes>, history: seq<set<Bytes>>, i: nat, j: nat)
    requires Published(sha, objects, ids, history) && i <= j < |ids|
    ensures history[i] <= history[j]
    decreases j
  {
    if i < j {
      assert PublishedAt(sha, objects, ids, history, j);
      PublishedGrows(sha, objects, ids, history, i, j - 1);
    }
  }

  lemma {:induction false} ReverseTwice<T>(s: seq<T>)
    ensures Reverse(Reverse(s)) == s
  {
  }

  /** Reading generation `i` back from the published records alone. */
  lemma {:induction false} PublishedMembers(
      sha: Sha, objects: Objects, ids: seq<Bytes>, history: seq<set<Bytes>>, i: nat, chain: seq<Generation>)
    requires Published(sha, objects, ids, history) && i < |ids| && IsChain(objects, ids[i], chain)
    ensures Replay({}, Reverse(chain)) == history[i]
  {
    PublishedChain(sha, objects, ids, history, i);
    PublishedReplay(sha, objects, ids, history, i);
    var records := Records(objects, ids)[..i + 1];
    ChainUnique(objects, ids[i], chain, Reverse(records));
    ReverseTwice(records);
  }

  lemma {:induction false} PublishedContiguous(
      sha: Sha, objects: Objects, ids: seq<Bytes>, history: seq<set<Bytes>>, k: nat)
    requires Published(sha, objects, ids, history) && k + 1 < |ids|
    ensures var delta := Records(objects, ids)[k + 1..];
            && Contiguous(k, delta)
            && Last(delta).snapshot == MembershipRoot(sha, FromSet(Last(history)))
  {
    var n := |ids|;
    var delta := Records(objects, ids)[k + 1..];
    forall i | 0 <= i < |delta| ensures delta[i].index == k + 1 + i {
      assert PublishedAt(sha, objects, ids, history, k + 1 + i);
    }
    assert PublishedAt(sha, objects, ids, history, n - 1);
    assert Last(delta) == objects[ids[n - 1]];
  }

  /** A reader at any generation `k` who fetches the records since is accepted,
      and ends where a full replay does. */
  lemma {:induction false} PublishedCatchUp(
      sha: Sha, objects: Objects, ids: seq<Bytes>, history: seq<set<Bytes>>, k: nat)
    requires Published(sha, objects, ids, history) && k + 1 < |ids|
    ensures var delta := Records(objects, ids)[k + 1..];
            && Accepted(sha, FromSet(history[k]), k, delta)
            && After(FromSet(history[k]), delta) == FromSet(Last(history))
  {
    var records, n := Records(objects, ids), |ids|;
    PublishedReplay(sha, objects, ids, history, k);
    PublishedReplay(sha, objects, ids, history, n - 1);
    assert records[..n] == records;
    CatchUp(records, k);
    PublishedContiguous(sha, objects, ids, history, k);
  }

  // ------------------------------------------------------------------- advance

  datatype Tip = Tip(index: nat, cid: Bytes)

  datatype AdvanceError =
    | OverBound(size: nat, bound: nat)
    | NotClosed
    | Unreadable(chain: ChainError)
    | Lost(member: Bytes)
    | IndexGap
    | MissingParent
    | PhantomAddition(cid: Bytes)
    | UndeclaredRemoval

  /** The record to publish after the last, if the members changed. */
  method NextRecord(
      sha: Sha, objects: Objects, tip: Tip, members: set<Bytes>, ghost ids: seq<Bytes>, ghost history: seq<set<Bytes>>)
    returns (r: Result<Option<Generation>, AdvanceError>)
    requires Published(sha, objects, ids, history) && ids != [] && tip == Tip(|ids| - 1, Last(ids))
    ensures r == Ok(None) <==> members == Last(history)
    ensures r.Err? <==> !(Last(history) <= members)
    ensures r.Err? ==> r.error.Lost? && r.error.member in Last(history) && r.error.member !in members
    ensures r.Ok? && r.value.Some? ==>
              r.value.value == Generation(|ids|, Some(Last(ids)), MembershipRoot(sha, FromSet(members)),
                                          Listing(members - Last(history)), [])
  {
    TipMembers(sha, objects, ids, history);
    var replayed := MembersOf(objects, tip.cid);
    var before;
    match replayed {
      case Err(e) => return Err(Unreadable(e));
      case Ok(value) => before := value;
    }
    assert before == Last(history);
    if before == members {
      return Ok(None);
    }
    if before - members != {} {
      return Err(Lost(Least(before - members)));
    }
    assert before <= (before - members) + members;
    var root, added := MembershipRoot(sha, FromSet(members)), Listing(members - before);
    var record := Generation(tip.index + 1, Some(tip.cid), root, added, []);
    if record.index != objects[tip.cid].index + 1 {
      return Err(IndexGap);
    }
    if record.parent.None? {
      return Err(MissingParent);
    }
    var change := Diff(FromSet(before), FromSet(members));
    GrowthIsAddition(before, members);
    if x :| x in record.added && x !in change.added {
      return Err(PhantomAddition(x));
    }
    if exists x :: x in change.removed && x !in record.removed {
      return Err(UndeclaredRemoval);
    }
    r := Ok(Some(record));
  }

  /** The last generation's chain is held, and replays to the last members. */
  lemma {:induction false} TipMembers(sha: Sha, objects: Objects, ids: seq<Bytes>, history: seq<set<Bytes>>)
    requires Published(sha, objects, ids, history) && ids != []
    ensures Last(ids) in objects && objects[Last(ids)].index == |ids| - 1
    ensures exists chain :: IsChain(objects, Last(ids), chain)
    ensures forall chain :: IsChain(objects, Last(ids), chain) ==> Replay({}, Reverse(chain)) == Last(history)
  {
    var n := |ids| - 1;
    assert PublishedAt(sha, objects, ids, history, n);
    PublishedChain(sha, objects, ids, history, n);
    forall chain | IsChain(objects, Last(ids), chain) ensures Replay({}, Reverse(chain)) == Last(history) {
      PublishedMembers(sha, objects, ids, history, n, chain);
    }
  }

  /** When members are only gained, the difference is what was gained. */
  lemma {:induction false} GrowthIsAddition(before: set<Bytes>, members: set<Bytes>)
    requires before <= members
    ensures var change := Diff(FromSet(before), FromSet(members));
            && (forall x :: x in change.added <==> x in Listing(members - before))
            && (forall x :: x !in change.removed)
  {
    forall x ensures x in FromSet(before).members <==> x in before {
      assert x in Elements(FromSet(before)) <==> x in FromSet(before).members;
    }
    forall x ensures x in FromSet(members).members <==> x in members {
      assert x in Elements(FromSet(members)) <==> x in FromSet(members).members;
    }
  }

  class Corpus {
    var objects: Objects
    var generation: Option<Tip>
    ghost var ids: seq<Bytes>
    ghost var history: seq<set<Bytes>>

    constructor ()
      ensures objects == map[] && generation == None && ids == [] && history == []
    {
      objects := map[];
      generation := None;
      ids := [];
      history := [];
    }

    ghost predicate Valid(sha: Sha)
      reads this
    {
      && Published(sha, objects, ids, history)
      && generation == if ids == [] then None else Some(Tip(|ids| - 1, Last(ids)))
    }

    /** Publish a generation if the members changed, all they depend on is among
        them and their objects keep within the declared bound.  `name` gives a
        record its identifier; an identifier already held names the record it is
        asked to name, which is what content addressing promises. */
    method Advance(
        sha: Sha, name: Generation -> Bytes, members: set<Bytes>, size: nat, bound: nat, closed: set<Bytes> -> bool)
      returns (r: Result<Option<Tip>, AdvanceError>)
      requires Valid(sha)
      requires forall g :: name(g) in objects ==> objects[name(g)] == g
      modifies this
      ensures Valid(sha)
      ensures r == Err(OverBound(size, bound)) <==> size > bound
      ensures r == Err(NotClosed) <==> size <= bound && !closed(members)
      ensures r == Ok(None) <==>
                size <= bound && closed(members) && old(history) != [] && members == Last(old(history))
      ensures (r.Ok? && r.value.Some?) <==>
                size <= bound && closed(members) && (old(history) != [] ==> Last(old(history)) < members)
      ensures r.Err? ==> r.error.OverBound? || r.error.NotClosed? || r.error.Lost?
      ensures r.Err? && r.error.Lost? ==>
                old(history) != [] && r.error.member in Last(old(history)) && r.error.member !in members
      ensures r.Err? || r == Ok(None) ==>
                objects == old(objects) && generation == old(generation) && ids == old(ids) && history == old(history)
      ensures r.Ok? && r.value.Some? ==>
                && history == old(history) + [members] && ids != [] && Init(ids) == old(ids)
                && r.value == Some(Tip(|old(history)|, Last(ids)))
                && objects.Keys == old(objects.Keys) + {Last(ids)}
                && Last(ids) == name(objects[Last(ids)])
                && NextOf(sha, old(ids), old(history), objects[Last(ids)], members)
                && forall c :: c in old(objects) ==> objects[c] == old(objects)[c]
    {
      if size > bound {
        return Err(OverBound(size, bound));
      }
      if !closed(members) {
        return Err(NotClosed);
      }
      var next := RecordFor(sha, members);
      if next.Err? {
        return Err(next.error);
      }
      if next.value.None? {
        return Ok(None);
      }
      Write(sha, name(next.value.value), next.value.value, members);
      r := Ok(generation);
    }

    /** The first record, or the next one if the members changed. */
    method RecordFor(sha: Sha, members: set<Bytes>) returns (r: Result<Option<Generation>, AdvanceError>)
      requires Valid(sha)
      ensures r == Ok(None) <==> history != [] && members == Last(history)
      ensures r.Err? <==> history != [] && !(Last(history) <= members)
      ensures r.Err? ==> r.error.Lost? && r.error.member in Last(history) && r.error.member !in members
      ensures r.Ok? && r.value.Some? ==> NextOf(sha, ids, history, r.value.value, members)
    {
      if generation.Some? {
        r := NextRecord(sha, objects, generation.value, members, ids, history);
      } else {
        assert members - {} == members;
        r := Ok(Some(Generation(0, None, MembershipRoot(sha, FromSet(members)), Listing(members), [])));
      }
    }

    /** Store a record as the last generation. */
    method Write(sha: Sha, cid: Bytes, record: Generation, ghost members: set<Bytes>)
      requires Valid(sha) && (cid in objects ==> objects[cid] == record)
      requires NextOf(sha, ids, history, record, members)
      modifies this
      ensures Valid(sha)
      ensures objects == old(objects)[cid := record] && generation == Some(Tip(record.index, cid))
      ensures ids == old(ids) + [cid] && history == old(history) + [members]
    {
      PublishedStep(sha, objects, ids, history, cid, record, members);
      objects := objects[cid := record];
      generation := Some(Tip(record.index, cid));
      ids, history := ids + [cid], history + [members];
    }
  }

  /** The record that follows what was published, for members only gained. */
  ghost predicate NextOf(sha: Sha, ids: seq<Bytes>, history: seq<set<Bytes>>, record: Generation, members: set<Bytes>) {
    && |ids| == |history|
    && (ids != [] ==> Last(history) <= members)
    && record == Generation(|ids|, if ids == [] then None else Some(Last(ids)), MembershipRoot(sha, FromSet(members)),
                            Listing(members - if ids == [] then {} else Last(history)), [])
  }

  /** Writing the next record keeps everything published before it. */
  lemma {:induction false} PublishedStep(
      sha: Sha, objects: Objects, ids: seq<Bytes>, history: seq<set<Bytes>>, cid: Bytes, record: Generation,
      members: set<Bytes>)
    requires Published(sha, objects, ids, history) && (cid in objects ==> objects[cid] == record)
    requires NextOf(sha, ids, history, record, members)
    ensures Published(sha, objects[cid := record], ids + [cid], history + [members])
  {
    var objects', ids', history' := objects[cid := record], ids + [cid], history + [members];
    forall i | 0 <= i < |ids'| ensures PublishedAt(sha, objects', ids', history', i) {
      if i < |ids| {
        EarlierStays(sha, objects, ids, history, cid, record, members, i);
      }
    }
  }

  lemma {:induction false} EarlierStays(
      sha: Sha, objects: Objects, ids: seq<Bytes>, history: seq<set<Bytes>>, cid: Bytes, record: Generation,
      members: set<Bytes>, i: nat)
    requires Published(sha, objects, ids, history) && (cid in objects ==> objects[cid] == record) && i < |ids|
    ensures PublishedAt(sha, objects[cid := record], ids + [cid], history + [members], i)
  {
    assert PublishedAt(sha, objects, ids, history, i);
  }
}
