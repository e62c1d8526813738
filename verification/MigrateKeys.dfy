/** What migrating one object writes, key by key: everything stays where it was under
    its new names, but for the scope an edit adds and the basis it moves. */
module MigrateKeys {
  import opened Hashing
  import opened Wrappers
  import opened Migrate

  /** The fields and kinds the edits look for. */
  lemma {:induction false} Spelled()
    ensures TYPE == Ascii("type") && BODY == Ascii("body") && SCOPE == Ascii("scope") && DOMAIN == Ascii("domain")
    ensures CONDITIONS == Ascii("conditions") && UNCONDITIONAL == Ascii("unconditional") && VALUE == Ascii("value")
    ensures BASIS == Ascii("basis") && GROUNDS == Ascii("grounds")
    ensures RELATION == Ascii("claim.relation") && ANNOTATION == Ascii("claim.annotation")
  {
  }

  // ------------------------------------------------------------------- rewriting

  /** One step down a tree. */
  datatype Turn = Index(i: nat) | Key(k: Bytes)

  function Down(v: Value, turn: Turn): Option<Value> {
    match (v, turn)
    case (Array(items), Index(i)) => if i < |items| then Some(items[i]) else None
    case (Map(entries), Key(k)) => if k in entries then Some(entries[k]) else None
    case _ => None
  }

  function Follow(v: Value, path: seq<Turn>): Option<Value> {
    if path == [] then Some(v)
    else
      match Down(v, path[0])
      case None => None
      case Some(next) => Follow(next, path[1..])
  }

  /** What is of one make: a text, a list of a length, a map of some keys, or one
      other thing. */
  ghost predicate SameMake(v: Value, w: Value) {
    match (v, w)
    case (Text(_), Text(_)) => true
    case (Array(a), Array(b)) => |a| == |b|
    case (Map(a), Map(b)) => a.Keys == b.Keys
    case (Other(a), Other(b)) => a == b
    case _ => false
  }

  lemma {:induction false} RenamedIs(m: Mapping, t: Bytes)
    ensures t in m ==> Renamed(m, t) == m[t]
    ensures t !in m ==> Renamed(m, t) == t
  {
  }

  /** Rewriting keeps a tree's make everywhere and replaces the texts the mapping
      knows, by what it maps them to; it does not touch keys. */
  lemma {:induction false} RewrittenAt(v: Value, m: Mapping, path: seq<Turn>)
    ensures Follow(Rewrite(v, m), path).Some? <==> Follow(v, path).Some?
    ensures match (Follow(v, path), Follow(Rewrite(v, m), path))
            case (Some(x), Some(y)) => SameMake(x, y) && (x.Text? ==> y.text == Renamed(m, x.text))
            case _ => true
    decreases |path|
  {
    if path != [] {
      match Down(v, path[0])
      case None =>
      case Some(next) =>
        assert Down(Rewrite(v, m), path[0]) == Some(Rewrite(next, m));
        RewrittenAt(next, m, path[1..]);
    }
  }

  // ----------------------------------------------------------------------- editing

  type Fields = map<Bytes, Value>

  /** Under `k` the image holds what the object held, rewritten. */
  ghost predicate Stays(was: Fields, now: Fields, m: Mapping, k: Bytes) {
    k in was && k in now && now[k] == Rewrite(was[k], m)
  }

  /** A judgement with a basis. */
  predicate HasBasis(body: Fields) {
    Ascii("value") in body && body[Ascii("value")].Map? && Ascii("basis") in body[Ascii("value")].entries
  }

  /** The judgement's basis is under `grounds` and nowhere else; the rest stays. */
  ghost predicate BasisMoved(was: Fields, now: Fields, m: Mapping) {
    && now.Keys == was.Keys - {Ascii("basis")} + {Ascii("grounds")}
    && Ascii("basis") in was && Ascii("grounds") in now
    && now[Ascii("grounds")] == Rewrite(was[Ascii("basis")], m)
    && forall k :: k in was && k != Ascii("basis") && k != Ascii("grounds") ==> Stays(was, now, m, k)
  }

  /** A scope that restricts nothing. */
  ghost predicate Unrestricted(scope: Value) {
    scope == Map(map[Ascii("domain") := Text(Ascii("unconditional")), Ascii("conditions") := Array([])])
  }

  predicate Scoped(kind: Bytes) {
    kind == Ascii("claim.relation") || kind == Ascii("claim.annotation")
  }

  /** The body of an object of that kind, and of its image. */
  ghost predicate BodyEdited(kind: Bytes, was: Fields, now: Fields, m: Mapping) {
    && now.Keys == was.Keys + (if Scoped(kind) then {Ascii("scope")} else {})
    && (Scoped(kind) && Ascii("scope") !in was ==> Ascii("scope") in now && Unrestricted(now[Ascii("scope")]))
    && (forall k :: k in was && !(kind == Ascii("claim.annotation") && HasBasis(was) && k == Ascii("value")) ==>
          Stays(was, now, m, k))
    && (kind == Ascii("claim.annotation") && HasBasis(was) ==>
          && Ascii("value") in now && now[Ascii("value")].Map?
          && BasisMoved(was[Ascii("value")].entries, now[Ascii("value")].entries, m))
  }

  lemma {:induction false} BasisMoves(was: Fields, m: Mapping)
    requires HasBasis(was)
    ensures var now := RenameBasis(Rewrite(Map(was), m).entries);
      && now.Keys == was.Keys && now[Ascii("value")].Map?
      && BasisMoved(was[Ascii("value")].entries, now[Ascii("value")].entries, m)
      && forall k :: k in was && k != Ascii("value") ==> Stays(was, now, m, k)
  {
    Spelled();
    var after := Rewrite(Map(was), m).entries;
    var judgement := was[VALUE].entries;
    assert after[VALUE] == Rewrite(was[VALUE], m);
    assert after[VALUE].entries[BASIS] == Rewrite(judgement[BASIS], m);
    var now := RenameBasis(after)[VALUE].entries;
    forall k | k in judgement && k != BASIS && k != GROUNDS ensures Stays(judgement, now, m, k) {
    }
  }

  lemma {:induction false} ScopeAdded(was: Fields, m: Mapping)
    ensures var now := AddScope(Rewrite(Map(was), m).entries);
      && now.Keys == was.Keys + {Ascii("scope")}
      && (Ascii("scope") !in was ==> Unrestricted(now[Ascii("scope")]))
      && forall k :: k in was ==> Stays(was, now, m, k)
  {
    Spelled();
  }

  /** Adding a scope and moving a basis do not meet. */
  lemma {:induction false} RenameAfterScope(body: Fields)
    ensures RenameBasis(AddScope(body)) == AddScope(RenameBasis(body))
  {
    FieldsDiffer();
  }

  lemma {:induction false} BodyIs(kind: Bytes, was: Fields, m: Mapping)
    ensures BodyEdited(kind, was, EditBody(kind, Rewrite(Map(was), m).entries), m)
  {
    Spelled();
    FieldsDiffer();
    var after := Rewrite(Map(was), m).entries;
    ScopeAdded(was, m);
    if kind == ANNOTATION && HasBasis(was) {
      BasisMoves(was, m);
      RenameAfterScope(after);
      var moved := RenameBasis(after);
      var now := AddScope(moved);
      assert EditBody(kind, after) == now;
      forall k | k in was && k != VALUE ensures Stays(was, now, m, k) {
        assert Stays(was, moved, m, k);
      }
    } else {
      assert kind == ANNOTATION ==> RenameBasis(AddScope(after)) == AddScope(after);
    }
  }

  /** The image of an object: of the same fields, each rewritten, but for the body,
      which is edited as the object's kind asks. */
  lemma {:induction false} ImageIs(v: Value, m: Mapping)
    requires v.Map? && Ascii("type") in v.entries && v.entries[Ascii("type")].Text?
    ensures MigrateOne(v, m).Ok? && MigrateOne(v, m).value.Map?
    ensures var now, kind := MigrateOne(v, m).value.entries, Renamed(m, v.entries[Ascii("type")].text);
      && now.Keys == v.entries.Keys
      && (forall k :: k in now && k != Ascii("body") ==> Stays(v.entries, now, m, k))
      && (Ascii("body") in now ==>
            if v.entries[Ascii("body")].Map? then
              && now[Ascii("body")].Map?
              && BodyEdited(kind, v.entries[Ascii("body")].entries, now[Ascii("body")].entries, m)
            else Stays(v.entries, now, m, Ascii("body")))
  {
    Spelled();
    var fields, after := v.entries, Rewrite(v, m).entries;
    assert after[TYPE] == Rewrite(fields[TYPE], m);
    if BODY in fields {
      assert after[BODY] == Rewrite(fields[BODY], m);
      if fields[BODY].Map? {
        BodyIs(Renamed(m, fields[TYPE].text), fields[BODY].entries, m);
      }
    }
  }
}
