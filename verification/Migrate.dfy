/** One-shot migration of a content-addressed corpus: every object is rewritten
    once everything it names has its new identifier. */
module Migrate {
  import opened Hashing
  import opened Seqs
  import opened Ordering
  import opened Wrappers
  import opened Graph
  import opened Topological

  /** A decoded object, as far as references go. */
  datatype Value =
    | Text(text: Bytes)
    | Array(items: seq<Value>)
    | Map(entries: map<Bytes, Value>)
    | Other(code: nat)

  const TYPE: Bytes := [116, 121, 112, 101]
  const BODY: Bytes := [98, 111, 100, 121]
  const SCOPE: Bytes := [115, 99, 111, 112, 101]
  const DOMAIN: Bytes := [100, 111, 109, 97, 105, 110]
  const CONDITIONS: Bytes := [99, 111, 110, 100, 105, 116, 105, 111, 110, 115]
  const UNCONDITIONAL: Bytes := [117, 110, 99, 111, 110, 100, 105, 116, 105, 111, 110, 97, 108]
  const VALUE: Bytes := [118, 97, 108, 117, 101]
  const BASIS: Bytes := [98, 97, 115, 105, 115]
  const GROUNDS: Bytes := [103, 114, 111, 117, 110, 100, 115]
  const RELATION: Bytes := [99, 108, 97, 105, 109, 46, 114, 101, 108, 97, 116, 105, 111, 110]
  const ANNOTATION: Bytes := [99, 108, 97, 105, 109, 46, 97, 110, 110, 111, 116, 97, 116, 105, 111, 110]

  lemma {:induction false} FieldsDiffer()
    ensures TYPE != BODY && VALUE != SCOPE && BASIS != GROUNDS && RELATION != ANNOTATION
  {
    assert TYPE[0] != BODY[0] && VALUE[0] != SCOPE[0];
    assert |BASIS| != |GROUNDS| && |RELATION| != |ANNOTATION|;
  }

  // ---------------------------------------------------------------- references

  /** `r` is some text in the tree, at any depth; keys do not count. */
  ghost predicate Names(v: Value, r: Bytes) {
    match v
    case Text(text) => text == r
    case Array(items) => exists i :: 0 <= i < |items| && Names(items[i], r)
    case Map(entries) => exists k :: k in entries && Names(entries[k], r)
    case Other(_) => false
  }

  /** Every text in the tree that `known` holds, after what is already there. */
  method Referenced(v: Value, known: set<Bytes>, before: seq<Bytes>) returns (refs: seq<Bytes>)
    ensures forall r :: r in refs <==> r in before || (r in known && Names(v, r))
    decreases v
  {
    refs := before;
    match v
    case Text(text) =>
      if text in known {
        refs := refs + [text];
      }
    case Array(items) =>
      for i := 0 to |items|
        invariant forall r :: r in refs <==> r in before || (r in known && exists j :: 0 <= j < i && Names(items[j], r))
      {
        refs := Referenced(items[i], known, refs);
      }
    case Map(entries) =>
      var keys := Listing(entries.Keys);
      for i := 0 to |keys|
        invariant forall r :: r in refs <==>
          r in before || (r in known && exists j :: 0 <= j < i && keys[j] in entries && Names(entries[keys[j]], r))
      {
        assert keys[i] in keys;
        refs := Referenced(entries[keys[i]], known, refs);
      }
      forall r
        ensures (exists j :: 0 <= j < |keys| && keys[j] in entries && Names(entries[keys[j]], r)) <==> Names(v, r)
      {
        if Names(v, r) {
          var k :| k in entries && Names(entries[k], r);
          assert k in keys;
        }
      }
    case Other(_) =>
  }

  type Mapping = map<Bytes, Bytes>

  function Renamed(m: Mapping, t: Bytes): Bytes {
    if t in m then m[t] else t
  }

  /** Every text the mapping knows, replaced. */
  function Rewrite(v: Value, m: Mapping): Value {
    match v
    case Text(text) => Text(Renamed(m, text))
    case Array(items) => Array(seq(|items|, i requires 0 <= i < |items| => Rewrite(items[i], m)))
    case Map(entries) => Map(map k | k in entries :: Rewrite(entries[k], m))
    case Other(_) => v
  }

  /** A rewritten tree names exactly the new names of what the tree names. */
  lemma {:induction false} RewriteNames(v: Value, m: Mapping, s: Bytes)
    ensures Names(Rewrite(v, m), s) <==> exists r :: Names(v, r) && Renamed(m, r) == s
    decreases v
  {
    match v
    case Text(text) =>
      assert Names(v, text);
    case Array(items) =>
      var done := Rewrite(v, m).items;
      forall i | 0 <= i < |items|
        ensures Names(done[i], s) <==> exists r :: Names(items[i], r) && Renamed(m, r) == s
      {
        RewriteNames(items[i], m, s);
      }
      if Names(Rewrite(v, m), s) {
        var i :| 0 <= i < |done| && Names(done[i], s);
        var r :| Names(items[i], r) && Renamed(m, r) == s;
        assert Names(v, r);
      }
    case Map(entries) =>
      var done := Rewrite(v, m).entries;
      forall k | k in entries
        ensures Names(done[k], s) <==> exists r :: Names(entries[k], r) && Renamed(m, r) == s
      {
        RewriteNames(entries[k], m, s);
      }
      if Names(Rewrite(v, m), s) {
        var k :| k in done && Names(done[k], s);
        var r :| Names(entries[k], r) && Renamed(m, r) == s;
        assert Names(v, r);
      }
    case Other(_) =>
  }

  /** Mappings that agree on what the tree names rewrite it alike. */
  lemma {:induction false} RewriteAgrees(v: Value, m: Mapping, n: Mapping)
    requires forall r :: Names(v, r) ==> Renamed(m, r) == Renamed(n, r)
    ensures Rewrite(v, m) == Rewrite(v, n)
    decreases v
  {
    match v
    case Text(text) =>
      assert Names(v, text);
    case Array(items) =>
      forall i | 0 <= i < |items| ensures Rewrite(items[i], m) == Rewrite(items[i], n) {
        forall r | Names(items[i], r) ensures Renamed(m, r) == Renamed(n, r) {
          assert Names(v, r);
        }
        RewriteAgrees(items[i], m, n);
      }
    case Map(entries) =>
      forall k | k in entries ensures Rewrite(entries[k], m) == Rewrite(entries[k], n) {
        forall r | Names(entries[k], r) ensures Renamed(m, r) == Renamed(n, r) {
          assert Names(v, r);
        }
        RewriteAgrees(entries[k], m, n);
      }
    case Other(_) =>
  }

  lemma {:induction false} RewriteNothing(v: Value)
    ensures Rewrite(v, map[]) == v
    decreases v
  {
    match v
    case Text(_) =>
    case Array(items) =>
      forall i | 0 <= i < |items| ensures Rewrite(items[i], map[]) == items[i] {
        RewriteNothing(items[i]);
      }
      assert Rewrite(v, map[]).items == items;
    case Map(entries) =>
      forall k | k in entries ensures Rewrite(entries[k], map[]) == entries[k] {
        RewriteNothing(entries[k]);
      }
      assert Rewrite(v, map[]).entries == entries;
    case Other(_) =>
  }

  // ----------------------------------------------------------------- the edits

  datatype Malformed = NotAMap | NoType

  /** A body without a scope is given the one that restricts nothing. */
  function AddScope(body: map<Bytes, Value>): map<Bytes, Value> {
    if SCOPE in body then body
    else body[SCOPE := Map(map[DOMAIN := Text(UNCONDITIONAL), CONDITIONS := Array([])])]
  }

  /** What a judgement called its basis it calls its grounds from now on; grounds
      it had already are written over. */
  function RenameBasis(body: map<Bytes, Value>): map<Bytes, Value> {
    if VALUE !in body || !body[VALUE].Map? then body
    else
      var judgement := body[VALUE].entries;
      if BASIS !in judgement then body
      else body[VALUE := Map((judgement - {BASIS})[GROUNDS := judgement[BASIS]])]
  }

  function EditBody(kind: Bytes, body: map<Bytes, Value>): map<Bytes, Value> {
    var scoped := if kind == RELATION || kind == ANNOTATION then AddScope(body) else body;
    if kind == ANNOTATION then RenameBasis(scoped) else scoped
  }

  function Edit(v: Value): Result<Value, Malformed> {
    if !v.Map? then Err(NotAMap)
    else
      var fields := v.entries;
      if TYPE !in fields || !fields[TYPE].Text? then Err(NoType)
      else if BODY in fields && fields[BODY].Map? then
        Ok(Map(fields[BODY := Map(EditBody(fields[TYPE].text, fields[BODY].entries))]))
      else Ok(v)
  }

  /** An object with the identifiers it names replaced, and the edits made. */
  function MigrateOne(v: Value, m: Mapping): Result<Value, Malformed> {
    Edit(Rewrite(v, m))
  }

  /** Whether an object can be edited at all is a matter of its shape alone. */
  predicate WellFormed(v: Value) {
    v.Map? && TYPE in v.entries && v.entries[TYPE].Text?
  }

  lemma {:induction false} WellFormedStays(v: Value, m: Mapping)
    ensures MigrateOne(v, m).Ok? <==> WellFormed(v)
    ensures MigrateOne(v, m).Err? ==> MigrateOne(v, m).error == if v.Map? then NoType else NotAMap
  {
    if v.Map? && TYPE in v.entries {
      assert Rewrite(v, m).entries[TYPE] == Rewrite(v.entries[TYPE], m);
    }
  }

  /** A second edit finds nothing to do. */
  lemma {:induction false} EditIdempotent(v: Value)
    requires Edit(v).Ok?
    ensures Edit(Edit(v).value) == Edit(v)
  {
    FieldsDiffer();
    var fields := v.entries;
    if BODY in fields && fields[BODY].Map? {
      EditBodyIdempotent(fields[TYPE].text, fields[BODY].entries);
      var once := Edit(v).value.entries;
      assert once[BODY := once[BODY]] == once;
    }
  }

  lemma {:induction false} EditBodyIdempotent(kind: Bytes, body: map<Bytes, Value>)
    ensures EditBody(kind, EditBody(kind, body)) == EditBody(kind, body)
  {
    FieldsDiffer();
  }

  // --------------------------------------------------- what an edit leaves named

  lemma {:induction false} PutNames(fields: map<Bytes, Value>, k: Bytes, x: Value, s: Bytes)
    ensures Names(Map(fields[k := x]), s) <==> Names(x, s) || Names(Map(fields - {k}), s)
  {
    var after := fields[k := x];
    if Names(Map(after), s) {
      var j :| j in after && Names(after[j], s);
      assert j != k ==> j in fields - {k} && (fields - {k})[j] == after[j];
    }
    if Names(x, s) {
      assert k in after && after[k] == x;
    }
    if Names(Map(fields - {k}), s) {
      var j :| j in fields - {k} && Names((fields - {k})[j], s);
      assert j in after && after[j] == fields[j];
    }
  }

  /** The body less what renaming writes over: grounds a judgement already
      stated beside its basis. */
  function PrunedBody(body: map<Bytes, Value>): map<Bytes, Value> {
    if VALUE in body && body[VALUE].Map? && BASIS in body[VALUE].entries then
      body[VALUE := Map(body[VALUE].entries - {GROUNDS})]
    else body
  }

  function PrunedAs(v: Value, kind: Bytes): Value
    requires WellFormed(v)
  {
    if kind == ANNOTATION && BODY in v.entries && v.entries[BODY].Map? then
      Map(v.entries[BODY := Map(PrunedBody(v.entries[BODY].entries))])
    else v
  }

  function Pruned(v: Value): Value
    requires WellFormed(v)
  {
    PrunedAs(v, v.entries[TYPE].text)
  }

  /** The edit of an object of that kind adds a scope. */
  predicate GainsScopeAs(v: Value, kind: Bytes)
    requires WellFormed(v)
  {
    && (kind == RELATION || kind == ANNOTATION)
    && BODY in v.entries && v.entries[BODY].Map? && SCOPE !in v.entries[BODY].entries
  }

  predicate GainsScope(v: Value)
    requires WellFormed(v)
  {
    GainsScopeAs(v, v.entries[TYPE].text)
  }

  lemma {:induction false} RenameBasisNames(body: map<Bytes, Value>, s: Bytes)
    ensures Names(Map(RenameBasis(body)), s) <==> Names(Map(PrunedBody(body)), s)
  {
    FieldsDiffer();
    if VALUE in body && body[VALUE].Map? && BASIS in body[VALUE].entries {
      var judgement := body[VALUE].entries;
      var renamed, pruned := (judgement - {BASIS})[GROUNDS := judgement[BASIS]], judgement - {GROUNDS};
      PutNames(body, VALUE, Map(renamed), s);
      PutNames(body, VALUE, Map(pruned), s);
      PutNames(judgement - {BASIS}, GROUNDS, judgement[BASIS], s);
      PutNames(pruned, BASIS, judgement[BASIS], s);
      assert pruned[BASIS := judgement[BASIS]] == pruned;
      assert judgement - {BASIS} - {GROUNDS} == pruned - {BASIS};
    }
  }

  lemma {:induction false} AddScopeNames(body: map<Bytes, Value>, s: Bytes)
    ensures Names(Map(AddScope(body)), s) <==> Names(Map(body), s) || (SCOPE !in body && s == UNCONDITIONAL)
  {
    if SCOPE !in body {
      var domain := map[DOMAIN := Text(UNCONDITIONAL)];
      var scope := Map(domain[CONDITIONS := Array([])]);
      PutNames(body, SCOPE, scope, s);
      assert body - {SCOPE} == body;
      PutNames(domain, CONDITIONS, Array([]), s);
      assert CONDITIONS != DOMAIN by {
        assert |CONDITIONS| != |DOMAIN|;
      }
      assert domain - {CONDITIONS} == domain;
      assert Names(Map(domain), s) <==> s == UNCONDITIONAL by {
        assert DOMAIN in domain && domain[DOMAIN] == Text(UNCONDITIONAL);
      }
      assert map[DOMAIN := Text(UNCONDITIONAL), CONDITIONS := Array([])] == domain[CONDITIONS := Array([])];
    }
  }

  lemma {:induction false} EditBodyNames(kind: Bytes, body: map<Bytes, Value>, s: Bytes)
    ensures Names(Map(EditBody(kind, body)), s) <==>
      || Names(Map(if kind == ANNOTATION then PrunedBody(body) else body), s)
      || ((kind == RELATION || kind == ANNOTATION) && SCOPE !in body && s == UNCONDITIONAL)
  {
    FieldsDiffer();
    if kind == ANNOTATION {
      RenameBasisNames(AddScope(body), s);
      assert PrunedBody(AddScope(body)) == AddScope(PrunedBody(body));
      AddScopeNames(PrunedBody(body), s);
    } else {
      AddScopeNames(body, s);
    }
  }

  /** Exactly what an edited object names: what survives of the object, and the
      text of an added scope. */
  lemma {:induction false} EditNames(v: Value, s: Bytes)
    requires WellFormed(v)
    ensures Names(Edit(v).value, s) <==> Names(Pruned(v), s) || (GainsScope(v) && s == UNCONDITIONAL)
  {
    var fields := v.entries;
    if BODY in fields && fields[BODY].Map? {
      var kind, body := fields[TYPE].text, fields[BODY].entries;
      var kept := if kind == ANNOTATION then PrunedBody(body) else body;
      EditBodyNames(kind, body, s);
      PutNames(fields, BODY, Map(EditBody(kind, body)), s);
      PutNames(fields, BODY, Map(kept), s);
      assert fields[BODY := fields[BODY]] == fields;
    }
  }

  /** The object holds a judgement with both a basis and grounds. */
  predicate BasisAndGrounds(v: Value)
    requires WellFormed(v)
  {
    && BODY in v.entries && v.entries[BODY].Map?
    && var body := v.entries[BODY].entries;
    && VALUE in body && body[VALUE].Map? && BASIS in body[VALUE].entries && GROUNDS in body[VALUE].entries
  }

  /** An annotation whose judgement has both loses the latter. */
  predicate StatesBoth(v: Value)
    requires WellFormed(v)
  {
    v.entries[TYPE].text == ANNOTATION && BasisAndGrounds(v)
  }

  lemma {:induction false} NothingPruned(v: Value, kind: Bytes)
    requires WellFormed(v) && !(kind == ANNOTATION && BasisAndGrounds(v))
    ensures PrunedAs(v, kind) == v
  {
    if kind == ANNOTATION && BODY in v.entries && v.entries[BODY].Map? {
      var body := v.entries[BODY].entries;
      if VALUE in body && body[VALUE].Map? && BASIS in body[VALUE].entries {
        assert body[VALUE].entries - {GROUNDS} == body[VALUE].entries;
        assert PrunedBody(body) == body;
      }
      assert v.entries[BODY := Map(PrunedBody(body))] == v.entries;
    }
  }

  /** The kind an object is edited as: its type is a text like any other. */
  function KindAfter(v: Value, m: Mapping): Bytes
    requires WellFormed(v)
  {
    Renamed(m, v.entries[TYPE].text)
  }

  lemma {:induction false} RewritePutInto(fields: map<Bytes, Value>, k: Bytes, x: Value, m: Mapping)
    ensures Rewrite(Map(fields[k := x]), m) == Map(Rewrite(Map(fields), m).entries[k := Rewrite(x, m)])
  {
  }

  lemma {:induction false} RewritePrunesBody(body: map<Bytes, Value>, m: Mapping)
    ensures PrunedBody(Rewrite(Map(body), m).entries) == Rewrite(Map(PrunedBody(body)), m).entries
  {
    var after := Rewrite(Map(body), m).entries;
    assert VALUE in body ==> after[VALUE] == Rewrite(body[VALUE], m);
    if VALUE in body && body[VALUE].Map? && BASIS in body[VALUE].entries {
      var kept := body[VALUE].entries - {GROUNDS};
      RewritePutInto(body, VALUE, Map(kept), m);
      assert Rewrite(Map(kept), m).entries == after[VALUE].entries - {GROUNDS};
    }
  }

  /** Pruning is a matter of shape, so it does not matter whether names are
      replaced before it or after. */
  lemma {:induction false} RewritePrunes(v: Value, kind: Bytes, m: Mapping)
    requires WellFormed(v)
    ensures WellFormed(Rewrite(v, m)) && PrunedAs(Rewrite(v, m), kind) == Rewrite(PrunedAs(v, kind), m)
    ensures GainsScopeAs(Rewrite(v, m), kind) <==> GainsScopeAs(v, kind)
  {
    var fields := v.entries;
    var after := Rewrite(v, m).entries;
    assert after[TYPE] == Rewrite(fields[TYPE], m);
    if BODY in fields {
      assert after[BODY] == Rewrite(fields[BODY], m);
      if fields[BODY].Map? {
        var body := fields[BODY].entries;
        RewritePrunesBody(body, m);
        RewritePutInto(fields, BODY, Map(PrunedBody(body)), m);
      }
    }
  }

  /** Exactly what the image of an object names: under its new name whatever is
      not written over, and the text of an added scope. */
  lemma {:induction false} ImageNames(v: Value, m: Mapping, s: Bytes)
    requires WellFormed(v)
    ensures MigrateOne(v, m).Ok?
    ensures Names(MigrateOne(v, m).value, s) <==>
      || (exists t :: Names(PrunedAs(v, KindAfter(v, m)), t) && Renamed(m, t) == s)
      || (GainsScopeAs(v, KindAfter(v, m)) && s == UNCONDITIONAL)
  {
    var kind := KindAfter(v, m);
    WellFormedStays(v, m);
    RewritePrunes(v, kind, m);
    assert Rewrite(v, m).entries[TYPE] == Text(kind);
    EditNames(Rewrite(v, m), s);
    RewriteNames(PrunedAs(v, kind), m, s);
  }

  /** Unless an annotation's judgement has both, everything an object names is in
      its image under its new name. */
  lemma {:induction false} ReferencesKept(v: Value, m: Mapping, r: Bytes)
    requires WellFormed(v) && Names(v, r)
    requires !(KindAfter(v, m) == ANNOTATION && BasisAndGrounds(v))
    ensures MigrateOne(v, m).Ok? && Names(MigrateOne(v, m).value, Renamed(m, r))
  {
    NothingPruned(v, KindAfter(v, m));
    ImageNames(v, m, Renamed(m, r));
  }

  /** One that has both loses what its grounds name, unless that is named under
      the same new name elsewhere. */
  lemma {:induction false} GroundsLost(v: Value, m: Mapping, r: Bytes)
    requires WellFormed(v) && KindAfter(v, m) == ANNOTATION && BasisAndGrounds(v)
    requires Names(v.entries[BODY].entries[VALUE].entries[GROUNDS], r)
    requires forall t :: Names(PrunedAs(v, ANNOTATION), t) ==> Renamed(m, t) != Renamed(m, r)
    requires Renamed(m, r) != UNCONDITIONAL
    ensures Names(v, r) && MigrateOne(v, m).Ok? && !Names(MigrateOne(v, m).value, Renamed(m, r))
  {
    ImageNames(v, m, Renamed(m, r));
    assert Names(v.entries[BODY].entries[VALUE], r);
    assert Names(v.entries[BODY], r);
  }

  /** For instance. */
  lemma {:induction false} GroundsLostExample(a: Bytes, b: Bytes) returns (v: Value)
    requires a != b && b != UNCONDITIONAL && b != ANNOTATION
    ensures WellFormed(v) && StatesBoth(v) && Names(v, b)
    ensures MigrateOne(v, map[]).Ok? && !Names(MigrateOne(v, map[]).value, b)
  {
    FieldsDiffer();
    var judgement: map<Bytes, Value> := map[BASIS := Text(a), GROUNDS := Text(b)];
    var body: map<Bytes, Value> := map[VALUE := Map(judgement)];
    v := Map(map[TYPE := Text(ANNOTATION), BODY := Map(body)]);
    assert v.entries[BODY].entries[VALUE].entries[GROUNDS] == Text(b);
    var kept: map<Bytes, Value> := map[BASIS := Text(a)];
    assert PrunedBody(body)[VALUE].entries == kept;
    assert !Names(Map(kept), b);
    assert forall k :: k in PrunedBody(body) ==> k == VALUE;
    assert !Names(Map(PrunedBody(body)), b);
    assert forall k :: k in Pruned(v).entries ==> k == TYPE || k == BODY;
    RewriteNothing(v);
    GroundsLost(v, map[], b);
  }

  // --------------------------------------------------------------------- the run

  /** What a run is given: the decoded objects, every identifier the corpus
      holds, and how a tree becomes bytes and bytes an identifier. */
  datatype Job = Job(decoded: map<Bytes, Value>, known: set<Bytes>, encode: Value -> Bytes, identify: Bytes -> Bytes)

  datatype Migrated = Migrated(was: Bytes, now: Bytes, bytes: Bytes)

  datatype MigrateError = BadObject(id: Bytes, why: Malformed) | CannotOrder(stuck: seq<Bytes>)

  /** `x` names `r`, another object the corpus holds. */
  ghost predicate Needs(job: Job, x: Bytes, r: Bytes) {
    x in job.decoded && r in job.known && r != x && Names(job.decoded[x], r)
  }

  ghost predicate Ready(job: Job, x: Bytes, m: Mapping) {
    forall r :: Needs(job, x, r) ==> r in m
  }

  function MappingOf(done: seq<Migrated>): Mapping
    decreases |done|
  {
    if done == [] then map[] else MappingOf(Init(done))[Last(done).was := Last(done).now]
  }

  ghost predicate Step(job: Job, m: Mapping, one: Migrated) {
    && one.was in job.decoded && one.was !in m && Ready(job, one.was, m)
    && var image := MigrateOne(job.decoded[one.was], m);
    && image.Ok? && one.bytes == job.encode(image.value) && one.now == job.identify(one.bytes)
  }

  /** Each object migrated once, after everything it needs, under the mapping
      known by then. */
  ghost predicate InOrder(job: Job, done: seq<Migrated>)
    decreases |done|
  {
    done == [] || (InOrder(job, Init(done)) && Step(job, MappingOf(Init(done)), Last(done)))
  }

  /** Objects that all wait for each other, or for one that is never migrated. */
  ghost predicate Blocked(job: Job, s: set<Bytes>) {
    s != {} && s <= job.decoded.Keys && forall x {:trigger Waits(job, s, x)} :: x in s ==> Waits(job, s, x)
  }

  ghost predicate Waits(job: Job, s: set<Bytes>, x: Bytes) {
    exists r :: Needs(job, x, r) && (r in s || r !in job.decoded)
  }

  lemma {:induction false} MappingWithin(job: Job, done: seq<Migrated>)
    requires InOrder(job, done)
    ensures MappingOf(done).Keys <= job.decoded.Keys
    ensures |MappingOf(done)| == |done|
    decreases |done|
  {
    if done != [] {
      MappingWithin(job, Init(done));
    }
  }

  lemma {:induction false} WaitsNotReady(job: Job, m: Mapping, s: set<Bytes>, x: Bytes)
    requires Blocked(job, s) && x in s && s !! m.Keys && m.Keys <= job.decoded.Keys
    ensures !Ready(job, x, m)
  {
    assert Waits(job, s, x);
    var r :| Needs(job, x, r) && (r in s || r !in job.decoded);
    assert r !in m;
  }

  /** A blocked object is never reached. */
  lemma {:induction false} BlockedStays(job: Job, done: seq<Migrated>, s: set<Bytes>)
    requires InOrder(job, done) && Blocked(job, s)
    ensures s !! MappingOf(done).Keys
    decreases |done|
  {
    if done != [] {
      BlockedStays(job, Init(done), s);
      MappingWithin(job, Init(done));
      if Last(done).was in s {
        WaitsNotReady(job, MappingOf(Init(done)), s, Last(done).was);
      }
    }
  }

  lemma {:induction false} AllMigrated(job: Job, done: seq<Migrated>)
    requires InOrder(job, done) && MappingOf(done).Keys == job.decoded.Keys
    ensures forall x :: x in job.decoded ==> WellFormed(job.decoded[x])
    ensures forall s :: !Blocked(job, s)
  {
    forall x | x in job.decoded ensures WellFormed(job.decoded[x]) {
      MigratedWell(job, done, x);
    }
    forall s ensures !Blocked(job, s) {
      if Blocked(job, s) {
        var x :| x in s;
        BlockedStays(job, done, s);
      }
    }
  }

  lemma {:induction false} MigratedWell(job: Job, done: seq<Migrated>, x: Bytes)
    requires InOrder(job, done) && x in MappingOf(done)
    ensures x in job.decoded && WellFormed(job.decoded[x])
    decreases |done|
  {
    if x == Last(done).was {
      WellFormedStays(job.decoded[x], MappingOf(Init(done)));
    } else {
      MigratedWell(job, Init(done), x);
    }
  }

  /** Objects none of which is ready are blocked. */
  lemma {:induction false} NoneReady(job: Job, m: Mapping, stuck: seq<Bytes>)
    requires stuck != [] && m.Keys <= job.decoded.Keys
    requires forall x :: x in job.decoded <==> x in m || x in stuck
    requires forall x :: x in stuck ==> !Ready(job, x, m)
    ensures Blocked(job, set x | x in stuck)
  {
    var s := set x | x in stuck;
    assert stuck[0] in s;
    forall x | x in s ensures Waits(job, s, x) {
      var r :| Needs(job, x, r) && r !in m;
    }
  }

  ghost predicate MostBlocked(job: Job, s: set<Bytes>) {
    Blocked(job, s) && forall t :: Blocked(job, t) ==> t <= s
  }

  /** What is left over when nothing is ready holds everything blocked. */
  lemma {:induction false} AllBlockedLeft(job: Job, done: seq<Migrated>, s: set<Bytes>)
    requires InOrder(job, done) && Blocked(job, s)
    requires forall x :: x in job.decoded && x !in MappingOf(done) ==> x in s
    ensures MostBlocked(job, s)
  {
    forall t | Blocked(job, t) ensures t <= s {
      BlockedStays(job, done, t);
    }
  }

  /** What is not migrated yet is, once each, in one of two lists. */
  ghost predicate Left(job: Job, m: Mapping, still: seq<Bytes>, rest: seq<Bytes>) {
    && Distinct(still) && Distinct(rest) && m.Keys <= job.decoded.Keys
    && (forall x :: x in still ==> x !in rest)
    && forall x :: (x in job.decoded && x !in m) <==> (x in still || x in rest)
  }

  lemma {:induction false} KeepFirst(job: Job, m: Mapping, still: seq<Bytes>, rest: seq<Bytes>)
    requires rest != [] && Left(job, m, still, rest)
    ensures Left(job, m, still + [rest[0]], rest[1..])
  {
    assert rest == [rest[0]] + rest[1..];
    var kept := still + [rest[0]];
    forall i, j | 0 <= i < j < |kept| ensures kept[i] != kept[j] {
      assert kept[i] == still[i] && kept[i] in still;
    }
  }

  lemma {:induction false} MoveFirst(job: Job, m: Mapping, still: seq<Bytes>, rest: seq<Bytes>, now: Bytes)
    requires rest != [] && Left(job, m, still, rest)
    ensures Left(job, m[rest[0] := now], still, rest[1..])
  {
    assert rest == [rest[0]] + rest[1..];
    var after := m[rest[0] := now];
    forall x ensures (x in job.decoded && x !in after) <==> (x in still || x in rest[1..]) {
    }
  }

  lemma {:induction false} ListingLeft(job: Job)
    ensures Left(job, map[], [], Listing(job.decoded.Keys))
  {
    var keys := Listing(job.decoded.Keys);
    forall i, j | 0 <= i < j < |keys| ensures keys[i] != keys[j] {
      LessIrreflexive(keys[i]);
    }
  }

  /** Everything an object names that the corpus holds has its new name. */
  method IsReady(job: Job, cid: Bytes, mapping: Mapping) returns (ready: bool)
    requires cid in job.decoded
    ensures ready <==> Ready(job, cid, mapping)
  {
    var refs := Referenced(job.decoded[cid], job.known, []);
    ready := forall r :: r in refs ==> r == cid || r in mapping;
  }

  lemma {:induction false} StepTaken(job: Job, done: seq<Migrated>, one: Migrated)
    requires InOrder(job, done) && Step(job, MappingOf(done), one)
    ensures InOrder(job, done + [one]) && MappingOf(done + [one]) == MappingOf(done)[one.was := one.now]
  {
    Snoc(done, one);
  }

  // --------------------------------------------------------------------- the rounds

  ghost function WasOf(done: seq<Migrated>): (r: seq<Bytes>)
    ensures |r| == |done|
  {
    seq(|done|, i requires 0 <= i < |done| => done[i].was)
  }

  ghost function Joined(rounds: seq<seq<Bytes>>): seq<Bytes>
    decreases |rounds|
  {
    if rounds == [] then [] else Joined(Init(rounds)) + Last(rounds)
  }

  /** In the round before, `x` had its turn before all it needs was migrated. */
  ghost predicate NotBefore(job: Job, x: Bytes, last: seq<Bytes>, current: seq<Bytes>) {
    exists r :: Needs(job, x, r) && ((r in last && Less(x, r)) || r in current)
  }

  /** Each round is in order of identifiers, and what is in one could not be in the
      one before. */
  ghost predicate InRounds(job: Job, rounds: seq<seq<Bytes>>) {
    forall n :: 0 <= n < |rounds| ==>
      rounds[n] != [] && Increasing(rounds[n]) && (n > 0 ==> NoneBefore(job, rounds[n - 1], rounds[n]))
  }

  ghost predicate NoneBefore(job: Job, last: seq<Bytes>, current: seq<Bytes>) {
    forall x :: x in current ==> NotBefore(job, x, last, current)
  }

  /** `x` needs something not migrated yet, or migrated after its turn in `round`. */
  ghost predicate TooLate(job: Job, x: Bytes, round: seq<Bytes>, m: Mapping) {
    exists r :: Needs(job, x, r) && ((r in round && Less(x, r)) || r !in m)
  }

  /** The same of the round before, once `current` is migrated in this one. */
  ghost predicate Waited(job: Job, x: Bytes, last: seq<Bytes>, current: seq<Bytes>, m: Mapping) {
    exists r :: Needs(job, x, r) && ((r in last && Less(x, r)) || r in current || r !in m)
  }

  /** A round under way: migrated in it, passed over, and still to have their turn. */
  ghost predicate Turns(
      job: Job, rounds: seq<seq<Bytes>>, current: seq<Bytes>, still: seq<Bytes>, rest: seq<Bytes>, m: Mapping) {
    && Increasing(current) && Increasing(still) && Increasing(rest)
    && (forall x, y :: (x in current || x in still) && y in rest ==> Less(x, y))
    && (forall x :: x in still ==> TooLate(job, x, current, m))
    && (rounds != [] ==> NoneBefore(job, Last(rounds), current))
    && (rounds != [] ==> forall x :: x in rest ==> Waited(job, x, Last(rounds), current, m))
  }

  lemma {:induction false} SnocIncreasing(s: seq<Bytes>, x: Bytes)
    requires Increasing(s) && forall y :: y in s ==> Less(y, x)
    ensures Increasing(s + [x])
  {
    forall i, j | 0 <= i < j < |s| + 1 ensures Less((s + [x])[i], (s + [x])[j]) {
      assert s[i] in s;
    }
  }

  lemma {:induction false} RestAfter(rest: seq<Bytes>)
    requires rest != [] && Increasing(rest)
    ensures Increasing(rest[1..]) && forall y :: y in rest[1..] ==> y in rest && Less(rest[0], y)
  {
  }

  /** Passed over. */
  lemma {:induction false} TurnPasses(
      job: Job, rounds: seq<seq<Bytes>>, current: seq<Bytes>, still: seq<Bytes>, rest: seq<Bytes>, m: Mapping)
    requires Turns(job, rounds, current, still, rest, m) && rest != [] && !Ready(job, rest[0], m)
    ensures Turns(job, rounds, current, still + [rest[0]], rest[1..], m)
  {
    assert rest[0] in rest;
    RestAfter(rest);
    SnocIncreasing(still, rest[0]);
  }

  lemma {:induction false} StillLate(job: Job, x: Bytes, current: seq<Bytes>, m: Mapping, cid: Bytes, now: Bytes)
    requires TooLate(job, x, current, m) && Less(x, cid)
    ensures TooLate(job, x, current + [cid], m[cid := now])
  {
    var r :| Needs(job, x, r) && ((r in current && Less(x, r)) || r !in m);
    assert r in current ==> r in current + [cid];
    assert cid in current + [cid];
    assert Needs(job, x, r) && ((r in current + [cid] && Less(x, r)) || r !in m[cid := now]);
  }

  lemma {:induction false} StillWaited(
      job: Job, x: Bytes, last: seq<Bytes>, current: seq<Bytes>, m: Mapping, cid: Bytes, now: Bytes)
    requires Waited(job, x, last, current, m)
    ensures Waited(job, x, last, current + [cid], m[cid := now])
  {
    var r :| Needs(job, x, r) && ((r in last && Less(x, r)) || r in current || r !in m);
    assert r in current ==> r in current + [cid];
    assert cid in current + [cid];
    assert Needs(job, x, r) && ((r in last && Less(x, r)) || r in current + [cid] || r !in m[cid := now]);
  }

  lemma {:induction false} NotBeforeStill(job: Job, x: Bytes, last: seq<Bytes>, current: seq<Bytes>, cid: Bytes)
    requires NotBefore(job, x, last, current)
    ensures NotBefore(job, x, last, current + [cid])
  {
    var r :| Needs(job, x, r) && ((r in last && Less(x, r)) || r in current);
    assert r in current ==> r in current + [cid];
  }

  /** Migrated. */
  lemma {:induction false} TurnTakes(
      job: Job, rounds: seq<seq<Bytes>>, current: seq<Bytes>, still: seq<Bytes>, rest: seq<Bytes>, m: Mapping,
      cid: Bytes, now: Bytes)
    requires Turns(job, rounds, current, still, rest, m) && rest != [] && rest[0] == cid && Ready(job, cid, m)
    ensures Turns(job, rounds, current + [cid], still, rest[1..], m[cid := now])
  {
    assert cid in rest;
    RestAfter(rest);
    SnocIncreasing(current, cid);
    forall x | x in still ensures TooLate(job, x, current + [cid], m[cid := now]) {
      StillLate(job, x, current, m, cid, now);
    }
    if rounds != [] {
      var last := Last(rounds);
      forall x | x in rest[1..] ensures Waited(job, x, last, current + [cid], m[cid := now]) {
        StillWaited(job, x, last, current, m, cid, now);
      }
      forall x | x in current + [cid] ensures NotBefore(job, x, last, current + [cid]) {
        if x in current {
          NotBeforeStill(job, x, last, current, cid);
        } else {
          var r :| Needs(job, cid, r) && ((r in last && Less(cid, r)) || r in current || r !in m);
          assert r in current ==> r in current + [cid];
        }
      }
    }
  }

  /** A round that migrated something ends, and the next begins. */
  lemma {:induction false} NextRound(
      job: Job, rounds: seq<seq<Bytes>>, current: seq<Bytes>, still: seq<Bytes>, m: Mapping)
    requires InRounds(job, rounds) && current != [] && Turns(job, rounds, current, still, [], m)
    ensures InRounds(job, rounds + [current]) && Joined(rounds + [current]) == Joined(rounds) + current
    ensures Turns(job, rounds + [current], [], [], still, m)
  {
    Snoc(rounds, current);
    var all := rounds + [current];
    forall n | 0 <= n < |all|
      ensures all[n] != [] && Increasing(all[n]) && (n > 0 ==> NoneBefore(job, all[n - 1], all[n]))
    {
      if n == |rounds| && n > 0 {
        assert all[n - 1] == Last(rounds);
      }
    }
    forall x | x in still ensures Waited(job, x, current, [], m) {
      assert TooLate(job, x, current, m);
    }
  }

  lemma {:induction false} WasSnoc(done: seq<Migrated>, one: Migrated)
    ensures WasOf(done + [one]) == WasOf(done) + [one.was]
  {
  }

  /** Every decoded object, in rounds over what is left, each as soon as what it
      names came before; or all that is left when a round brings nothing. */
  method MigrateAll(job: Job) returns (r: Result<seq<Migrated>, MigrateError>, ghost rounds: seq<seq<Bytes>>)
    requires job.decoded.Keys <= job.known
    ensures r.Ok? ==> InOrder(job, r.value) && MappingOf(r.value).Keys == job.decoded.Keys
    ensures r.Ok? ==> InRounds(job, rounds) && WasOf(r.value) == Joined(rounds)
    ensures r.Err? && r.error.BadObject? ==> r.error.id in job.decoded && !WellFormed(job.decoded[r.error.id])
    ensures r.Err? && r.error.BadObject? ==> r.error.why == if job.decoded[r.error.id].Map? then NoType else NotAMap
    ensures r.Err? && r.error.CannotOrder? ==> MostBlocked(job, set x | x in r.error.stuck) && Increasing(r.error.stuck)
    ensures r.Ok? <==> (forall x :: x in job.decoded ==> WellFormed(job.decoded[x])) && forall s :: !Blocked(job, s)
  {
    var mapping: Mapping := map[];
    var pending := Listing(job.decoded.Keys);
    var migrated: seq<Migrated> := [];
    rounds := [];
    ListingLeft(job);
    while pending != []
      invariant Between(job, rounds, mapping, migrated, pending)
      decreases |pending|
    {
      RoundBegins(job, rounds, mapping, migrated, pending);
      var round := OneRound(job, mapping, pending, migrated, rounds);
      if round.Err? {
        return Err(round.error), rounds;
      }
      var Round(now, more, stillPending) := round.value;
      if more == [] {
        RunStuck(job, rounds, mapping, migrated, pending, now, stillPending);
        return Err(CannotOrder(stillPending)), rounds;
      }
      RoundEnds(job, rounds, mapping, migrated, pending, now, more, stillPending);
      rounds := rounds + [WasOf(more)];
      mapping, migrated, pending := now, migrated + more, stillPending;
    }
    AllMigrated(job, migrated);
    r := Ok(migrated);
  }

  /** Whole rounds are done, and `pending` is what they left. */
  ghost predicate Between(
      job: Job, rounds: seq<seq<Bytes>>, mapping: Mapping, migrated: seq<Migrated>, pending: seq<Bytes>) {
    && InOrder(job, migrated) && mapping == MappingOf(migrated) && Left(job, mapping, [], pending)
    && InRounds(job, rounds) && WasOf(migrated) == Joined(rounds)
    && Turns(job, rounds, [], [], pending, mapping)
  }

  lemma {:induction false} JoinWas(a: seq<Migrated>, b: seq<Migrated>)
    ensures WasOf(a + b) == WasOf(a) + WasOf(b)
  {
  }

  /** What a round leaves: the mapping, what it migrated, and what it passed over. */
  datatype Round = Round(mapping: Mapping, migrated: seq<Migrated>, still: seq<Bytes>)

  /** One object whose needs are met. */
  method MigrateReady(job: Job, cid: Bytes, mapping: Mapping) returns (r: Result<Migrated, MigrateError>)
    requires cid in job.decoded && cid !in mapping && Ready(job, cid, mapping)
    ensures r.Ok? ==> r.value.was == cid && Step(job, mapping, r.value)
    ensures r.Err? ==> r.error.BadObject? && r.error.id in job.decoded && !WellFormed(job.decoded[r.error.id])
    ensures r.Err? ==> r.error.why == if job.decoded[r.error.id].Map? then NoType else NotAMap
  {
    WellFormedStays(job.decoded[cid], mapping);
    var image := MigrateOne(job.decoded[cid], mapping);
    if image.Err? {
      return Err(BadObject(cid, image.error));
    }
    var bytes := job.encode(image.value);
    r := Ok(Migrated(cid, job.identify(bytes), bytes));
  }

  /** Each of `pending` once, migrated if it is ready at its turn. */
  method OneRound(
      job: Job, mapping: Mapping, pending: seq<Bytes>, ghost before: seq<Migrated>, ghost rounds: seq<seq<Bytes>>)
    returns (r: Result<Round, MigrateError>)
    requires UnderWay(job, mapping, before, rounds, pending, 0, mapping, [], [])
    ensures r.Err? ==> r.error.BadObject? && r.error.id in job.decoded && !WellFormed(job.decoded[r.error.id])
    ensures r.Err? ==> r.error.why == if job.decoded[r.error.id].Map? then NoType else NotAMap
    ensures r.Ok? ==> var Round(m, more, still) := r.value;
      UnderWay(job, mapping, before, rounds, pending, |pending|, m, more, still)
  {
    var m, more, still := mapping, [], [];
    for i := 0 to |pending|
      invariant UnderWay(job, mapping, before, rounds, pending, i, m, more, still)
    {
      var cid := pending[i];
      HasTurn(job, m, still, pending, i);
      var ready := IsReady(job, cid, m);
      if !ready {
        PassedOver(job, mapping, before, rounds, pending, i, m, more, still);
        still := still + [cid];
      } else {
        var one := MigrateReady(job, cid, m);
        if one.Err? {
          return Err(one.error);
        }
        Taken(job, mapping, before, rounds, pending, i, m, more, still, one.value);
        m := m[cid := one.value.now];
        more := more + [one.value];
      }
    }
    r := Ok(Round(m, more, still));
  }

  /** A round after the first `i` have had their turn. */
  ghost predicate UnderWay(
      job: Job, mapping: Mapping, before: seq<Migrated>, rounds: seq<seq<Bytes>>, pending: seq<Bytes>, i: nat,
      m: Mapping, more: seq<Migrated>, still: seq<Bytes>)
  {
    && i <= |pending| && InOrder(job, before + more) && m == MappingOf(before + more)
    && Left(job, m, still, pending[i..]) && |still| + |more| == i
    && Turns(job, rounds, WasOf(more), still, pending[i..], m)
    && (more == [] ==> m == mapping && forall x :: x in still ==> !Ready(job, x, mapping))
  }

  lemma {:induction false} RoundBegins(
      job: Job, rounds: seq<seq<Bytes>>, mapping: Mapping, before: seq<Migrated>, pending: seq<Bytes>)
    requires Between(job, rounds, mapping, before, pending)
    ensures UnderWay(job, mapping, before, rounds, pending, 0, mapping, [], [])
  {
    assert before + [] == before && pending[0..] == pending;
  }

  lemma {:induction false} HasTurn(job: Job, m: Mapping, still: seq<Bytes>, pending: seq<Bytes>, i: nat)
    requires i < |pending| && Left(job, m, still, pending[i..])
    ensures pending[i..][0] == pending[i] && pending[i..][1..] == pending[i + 1..]
    ensures pending[i] in job.decoded && pending[i] !in m
  {
    assert pending[i] in pending[i..];
  }

  lemma {:induction false} PassedOver(
      job: Job, mapping: Mapping, before: seq<Migrated>, rounds: seq<seq<Bytes>>, pending: seq<Bytes>, i: nat,
      m: Mapping, more: seq<Migrated>, still: seq<Bytes>)
    requires i < |pending| && UnderWay(job, mapping, before, rounds, pending, i, m, more, still)
    requires !Ready(job, pending[i], m)
    ensures UnderWay(job, mapping, before, rounds, pending, i + 1, m, more, still + [pending[i]])
  {
    HasTurn(job, m, still, pending, i);
    KeepFirst(job, m, still, pending[i..]);
    TurnPasses(job, rounds, WasOf(more), still, pending[i..], m);
  }

  lemma {:induction false} Taken(
      job: Job, mapping: Mapping, before: seq<Migrated>, rounds: seq<seq<Bytes>>, pending: seq<Bytes>, i: nat,
      m: Mapping, more: seq<Migrated>, still: seq<Bytes>, one: Migrated)
    requires i < |pending| && UnderWay(job, mapping, before, rounds, pending, i, m, more, still)
    requires one.was == pending[i] && Step(job, m, one)
    ensures UnderWay(job, mapping, before, rounds, pending, i + 1, m[one.was := one.now], more + [one], still)
  {
    HasTurn(job, m, still, pending, i);
    StepTaken(job, before + more, one);
    MoveFirst(job, m, still, pending[i..], one.now);
    TurnTakes(job, rounds, WasOf(more), still, pending[i..], m, one.was, one.now);
    WasSnoc(more, one);
    Regroup(before, more, [one]);
  }

  /** A round that migrated something. */
  lemma {:induction false} RoundEnds(
      job: Job, rounds: seq<seq<Bytes>>, mapping: Mapping, before: seq<Migrated>, pending: seq<Bytes>,
      m: Mapping, more: seq<Migrated>, still: seq<Bytes>)
    requires Between(job, rounds, mapping, before, pending) && more != []
    requires UnderWay(job, mapping, before, rounds, pending, |pending|, m, more, still)
    ensures Between(job, rounds + [WasOf(more)], m, before + more, still) && |still| < |pending|
  {
    assert pending[|pending|..] == [];
    NextRound(job, rounds, WasOf(more), still, m);
    JoinWas(before, more);
  }

  /** A round that migrated nothing. */
  lemma {:induction false} RunStuck(
      job: Job, rounds: seq<seq<Bytes>>, mapping: Mapping, before: seq<Migrated>, pending: seq<Bytes>,
      m: Mapping, still: seq<Bytes>)
    requires pending != [] && UnderWay(job, mapping, before, rounds, pending, |pending|, m, [], still)
    ensures MostBlocked(job, set x | x in still) && Increasing(still)
  {
    assert before + [] == before && pending[|pending|..] == [];
    NoneReady(job, m, still);
    AllBlockedLeft(job, before, set x | x in still);
  }

  // ------------------------------------------------------ what the run preserves

  /** Each entry was made as if with the final mapping, its own object's name
      apart, and comes after all it needs. */
  ghost predicate FinalImage(job: Job, m: Mapping, one: Migrated) {
    && one.was in job.decoded && one.was in m && m[one.was] == one.now && Ready(job, one.was, m)
    && var image := MigrateOne(job.decoded[one.was], m - {one.was});
    && image.Ok? && one.bytes == job.encode(image.value) && one.now == job.identify(one.bytes)
  }

  lemma {:induction false} FinalImages(job: Job, done: seq<Migrated>, i: nat)
    requires InOrder(job, done) && job.decoded.Keys <= job.known && i < |done|
    ensures FinalImage(job, MappingOf(done), done[i])
    decreases |done|
  {
    var m := MappingOf(Init(done));
    if i < |done| - 1 {
      FinalImages(job, Init(done), i);
      ImageStays(job, m, done[i], Last(done).was, Last(done).now);
    } else {
      assert m - {done[i].was} == m;
      assert MappingOf(done) - {done[i].was} == m;
    }
  }

  /** Later entries do not touch what an object names. */
  lemma {:induction false} ImageStays(job: Job, m: Mapping, one: Migrated, was: Bytes, now: Bytes)
    requires FinalImage(job, m, one) && was !in m && was in job.known
    ensures FinalImage(job, m[was := now], one)
  {
    var before, after := m - {one.was}, m[was := now] - {one.was};
    forall r | Names(job.decoded[one.was], r) ensures Renamed(before, r) == Renamed(after, r) {
      assert r in job.known && r != one.was ==> Needs(job, one.was, r);
    }
    RewriteAgrees(job.decoded[one.was], before, after);
  }

  /** Which identifiers an object's image names at the end of a run, from the
      object alone: exactly the new ones of what it names and is not written
      over. Nothing here depends on the run when no object is called by the
      object's type. */
  lemma {:induction false} ReferencesExactly(job: Job, done: seq<Migrated>, i: nat, s: Bytes) returns (image: Value)
    requires InOrder(job, done) && MappingOf(done).Keys == job.decoded.Keys <= job.known && i < |done|
    ensures done[i].was in job.decoded && WellFormed(job.decoded[done[i].was])
    ensures done[i].bytes == job.encode(image)
    ensures var v, m := job.decoded[done[i].was], MappingOf(done) - {done[i].was};
      Names(image, s) <==>
      || (exists t :: Names(PrunedAs(v, KindAfter(v, m)), t) && Renamed(m, t) == s)
      || (GainsScopeAs(v, KindAfter(v, m)) && s == UNCONDITIONAL)
    ensures var v, m := job.decoded[done[i].was], MappingOf(done) - {done[i].was};
      v.entries[TYPE].text !in job.known ==>
      (Names(image, s) <==>
      || (exists t :: Names(Pruned(v), t) && Renamed(m, t) == s)
      || (GainsScope(v) && s == UNCONDITIONAL))
  {
    FinalImages(job, done, i);
    MigratedWell(job, done, done[i].was);
    var v, m := job.decoded[done[i].was], MappingOf(done) - {done[i].was};
    ImageNames(v, m, s);
    image := MigrateOne(v, m).value;
  }

  /** An object that may lose a reference, told before the run: its judgement has
      both a basis and grounds, and it is an annotation or, its type being some
      object's name, might become one. */
  predicate MayLose(job: Job, v: Value)
    requires WellFormed(v)
  {
    BasisAndGrounds(v) && (v.entries[TYPE].text == ANNOTATION || v.entries[TYPE].text in job.known)
  }

  /** Every known reference to another object is in the object's image, under
      the name that object ended with. */
  lemma {:induction false} ReferencesPreserved(job: Job, done: seq<Migrated>, i: nat, r: Bytes) returns (image: Value)
    requires InOrder(job, done) && MappingOf(done).Keys == job.decoded.Keys <= job.known
    requires i < |done| && Needs(job, done[i].was, r)
    requires WellFormed(job.decoded[done[i].was]) && !MayLose(job, job.decoded[done[i].was])
    ensures r in MappingOf(done) && done[i].bytes == job.encode(image) && Names(image, MappingOf(done)[r])
  {
    FinalImages(job, done, i);
    var m := MappingOf(done) - {done[i].was};
    ReferencesKept(job.decoded[done[i].was], m, r);
    image := MigrateOne(job.decoded[done[i].was], m).value;
  }

  lemma {:induction false} Earlier(job: Job, done: seq<Migrated>, x: Bytes) returns (i: nat)
    requires InOrder(job, done) && x in MappingOf(done)
    ensures i < |done| && done[i].was == x
    decreases |done|
  {
    if x == Last(done).was {
      i := |done| - 1;
    } else {
      i := Earlier(job, Init(done), x);
    }
  }

  lemma {:induction false} EarlierAt(job: Job, done: seq<Migrated>, j: nat)
    requires InOrder(job, done) && j < |done|
    ensures InOrder(job, done[..j]) && Step(job, MappingOf(done[..j]), done[j])
    decreases |done|
  {
    if j < |done| - 1 {
      EarlierAt(job, Init(done), j);
      assert Init(done)[..j] == done[..j];
    } else {
      assert Init(done) == done[..j];
    }
  }

  /** What an object needs was migrated before it, and nothing twice. */
  lemma {:induction false} NeedsComeFirst(job: Job, done: seq<Migrated>, j: nat, r: Bytes) returns (i: nat)
    requires InOrder(job, done) && j < |done| && Needs(job, done[j].was, r)
    ensures i < j && done[i].was == r
  {
    EarlierAt(job, done, j);
    i := Earlier(job, done[..j], r);
  }

  lemma {:induction false} EachOnce(job: Job, done: seq<Migrated>, i: nat, j: nat)
    requires InOrder(job, done) && job.decoded.Keys <= job.known && i < j < |done|
    ensures done[i].was != done[j].was
  {
    EarlierAt(job, done, j);
    FinalImages(job, done[..j], i);
  }

  // ---------------------------------------------------------- when the run fails

  /** Each object's needs, as edges. */
  ghost function NeedsOf(job: Job): Next {
    x => Listing(set r | r in job.known && Needs(job, x, r))
  }

  /** Some object names one the corpus holds but this run does not migrate. */
  ghost predicate NeedsSkipped(job: Job) {
    exists x, r :: Needs(job, x, r) && r !in job.decoded
  }

  lemma {:induction false} WaitsWithin(job: Job, s: set<Bytes>, y: Bytes) returns (r: Bytes)
    requires Blocked(job, s) && y in s && !NeedsSkipped(job)
    ensures r in s && r in NeedsOf(job)(y)
  {
    assert Waits(job, s, y);
    r :| Needs(job, y, r) && (r in s || r !in job.decoded);
  }

  /** Waiting within a finite set comes back. */
  lemma {:induction false} WaitReturns(job: Job, s: set<Bytes>, p: seq<Bytes>) returns (c: seq<Bytes>)
    requires Blocked(job, s) && !NeedsSkipped(job)
    requires p != [] && Linked(NeedsOf(job), p) && Distinct(p) && forall x :: x in p ==> x in s
    ensures IsCycle(NeedsOf(job), c)
    decreases s - set x | x in p
  {
    var r := WaitsWithin(job, s, Last(p));
    if r in p {
      var i :| 0 <= i < |p| && p[i] == r;
      c := p[i..] + [r];
      CycleCloses(NeedsOf(job), p, i, r);
    } else {
      var longer := p + [r];
      assert (set x | x in longer) == (set x | x in p) + {r};
      c := WaitReturns(job, s, longer);
    }
  }

  /** Objects block a run exactly when one names a skipped object, or they name
      each other in a cycle; naming oneself is no cycle. */
  lemma {:induction false} BlockedExactly(job: Job)
    ensures (exists s :: Blocked(job, s)) <==> NeedsSkipped(job) || exists c :: IsCycle(NeedsOf(job), c)
  {
    if s :| Blocked(job, s) {
      if !NeedsSkipped(job) {
        var x :| x in s;
        var c := WaitReturns(job, s, [x]);
      }
    }
    if NeedsSkipped(job) {
      var x, r :| Needs(job, x, r) && r !in job.decoded;
      assert Waits(job, {x}, x);
      assert Blocked(job, {x});
    }
    if c :| IsCycle(NeedsOf(job), c) {
      CycleBlocks(job, c);
    }
  }

  lemma {:induction false} CycleBlocks(job: Job, c: seq<Bytes>)
    requires IsCycle(NeedsOf(job), c)
    ensures Blocked(job, set x | x in c)
  {
    var s := set x | x in c;
    assert c[0] in s;
    forall x | x in s ensures x in job.decoded && Waits(job, s, x) {
      var i :| 0 <= i < |c| && c[i] == x;
      var k := if i == |c| - 1 then 0 else i;
      assert c[k + 1] in NeedsOf(job)(c[k]);
      assert Needs(job, c[k], c[k + 1]) && c[k + 1] in s;
    }
  }

  // --------------------------------------------------------------- a second run

  /** Objects that are as a run would leave them. */
  ghost predicate Settled(job: Job) {
    forall x :: x in job.decoded ==>
      Edit(job.decoded[x]) == Ok(job.decoded[x]) && job.identify(job.encode(job.decoded[x])) == x
  }

  lemma {:induction false} IdentityRewrites(v: Value, m: Mapping)
    requires forall k :: k in m ==> m[k] == k
    ensures Rewrite(v, m) == v
  {
    RewriteNothing(v);
    RewriteAgrees(v, m, map[]);
  }

  lemma {:induction false} SettledStays(job: Job, done: seq<Migrated>)
    requires Settled(job) && InOrder(job, done)
    ensures forall i :: 0 <= i < |done| ==>
      done[i].was in job.decoded && done[i].now == done[i].was && done[i].bytes == job.encode(job.decoded[done[i].was])
    ensures forall k :: k in MappingOf(done) ==> MappingOf(done)[k] == k
    decreases |done|
  {
    if done != [] {
      SettledStays(job, Init(done));
      IdentityRewrites(job.decoded[Last(done).was], MappingOf(Init(done)));
    }
  }

  /** `again` is given what the first run wrote, decoded. */
  ghost predicate ReadBack(done: seq<Migrated>, again: Job, decode: Bytes -> Value) {
    && (forall i :: 0 <= i < |done| ==> done[i].now in again.decoded)
    && forall x :: x in again.decoded ==> WroteIt(done, x, again.decoded[x], decode)
  }

  ghost predicate WroteIt(done: seq<Migrated>, x: Bytes, v: Value, decode: Bytes -> Value) {
    exists i :: 0 <= i < |done| && done[i].now == x && v == decode(done[i].bytes)
  }

  /** A second run changes no identifier and no byte. */
  lemma {:induction false} SecondRunIdentity(
      job: Job, done: seq<Migrated>, decode: Bytes -> Value, again: Job, redone: seq<Migrated>)
    requires InOrder(job, done) && forall v: Value :: decode(job.encode(v)) == v
    requires again.encode == job.encode && again.identify == job.identify && ReadBack(done, again, decode)
    requires InOrder(again, redone)
    ensures forall i :: 0 <= i < |redone| ==> redone[i].now == redone[i].was
    ensures forall i :: 0 <= i < |redone| ==>
      exists j :: 0 <= j < |done| && done[j].now == redone[i].was && done[j].bytes == redone[i].bytes
  {
    forall x | x in again.decoded
      ensures Edit(again.decoded[x]) == Ok(again.decoded[x]) && again.identify(again.encode(again.decoded[x])) == x
      ensures exists j :: 0 <= j < |done| && done[j].now == x && done[j].bytes == again.encode(again.decoded[x])
    {
      var j :| 0 <= j < |done| && done[j].now == x && again.decoded[x] == decode(done[j].bytes);
      EarlierAt(job, done, j);
      EditIdempotent(Rewrite(job.decoded[done[j].was], MappingOf(done[..j])));
    }
    SettledStays(again, redone);
  }
}
