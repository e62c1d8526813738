/** Generations of a membership and the deltas between them. */
module Delta {
  import opened Hashing
  import opened Seqs
  import opened Ordering
  import opened Membership
  import opened Wrappers

  /** One generation record: what changed, and the root that results. */
  datatype Generation = Generation(
    index: nat, parent: Option<Bytes>, snapshot: Hash, added: seq<Bytes>, removed: seq<Bytes>)

  datatype DeltaError =
    | Empty
    | NotContiguous(expected: nat, found: nat)
    | RootMismatch(computed: Hash, declared: Hash)

  // ------------------------------------------------------------ sets of members

  function Elements(m: Membership): set<Bytes> {
    set x | x in m.members
  }

  function FromSet(s: set<Bytes>): (m: Membership)
    ensures Valid(m) && Elements(m) == s
  {
    New(Listing(s))
  }

  /** A membership is its set of members. */
  lemma {:induction false} FromSetOfElements(m: Membership)
    requires Valid(m)
    ensures FromSet(Elements(m)) == m
  {
    IncreasingUnique(FromSet(Elements(m)).members, m.members);
  }

  // ----------------------------------------------------------------- replay

  function Step(members: set<Bytes>, record: Generation): set<Bytes> {
    members + (set x | x in record.added) - (set x | x in record.removed)
  }

  function Replay(members: set<Bytes>, records: seq<Generation>): set<Bytes>
    decreases |records|
  {
    if records == [] then members else Step(Replay(members, Init(records)), Last(records))
  }

  lemma {:induction false} ReplayConcat(members: set<Bytes>, a: seq<Generation>, b: seq<Generation>)
    ensures Replay(members, a + b) == Replay(Replay(members, a), b)
    decreases |b|
  {
    if b == [] {
      assert a + b == a;
    } else {
      ReplayConcat(members, a, Init(b));
      assert Init(a + b) == a + Init(b);
    }
  }

  /** The last record to mention `x` decides, and where one mentions it both ways the
      removal does. */
  lemma {:induction false} LastMention(members: set<Bytes>, records: seq<Generation>, x: Bytes)
    ensures (forall i :: 0 <= i < |records| ==> x !in records[i].added && x !in records[i].removed) ==>
              (x in Replay(members, records) <==> x in members)
    ensures forall i :: LastToMention(records, x, i) ==>
              (x in Replay(members, records) <==> x !in records[i].removed)
    decreases |records|
  {
    if records != [] {
      var before, last := Init(records), Last(records);
      LastMention(members, before, x);
      assert records[|records| - 1] == last;
      forall i | LastToMention(records, x, i) && i < |records| - 1 ensures LastToMention(before, x, i) {
        assert before[i] == records[i];
      }
    }
  }

  ghost predicate LastToMention(records: seq<Generation>, x: Bytes, i: int) {
    && 0 <= i < |records| && (x in records[i].added || x in records[i].removed)
    && forall j :: i < j < |records| ==> x !in records[j].added && x !in records[j].removed
  }

  ghost predicate Contiguous(startIndex: nat, records: seq<Generation>) {
    forall i :: 0 <= i < |records| ==> records[i].index == startIndex + 1 + i
  }

  /** The membership a run of records leads to. */
  function After(start: Membership, records: seq<Generation>): Membership {
    FromSet(Replay(Elements(start), records))
  }

  /** The first record whose index breaks the run. */
  ghost predicate FirstGap(startIndex: nat, records: seq<Generation>, i: nat) {
    i < |records| && Contiguous(startIndex, records[..i]) && records[i].index != startIndex + 1 + i
  }

  method Extend(members: set<Bytes>, added: seq<Bytes>) returns (r: set<Bytes>)
    ensures r == members + set x | x in added
  {
    r := members;
    for i := 0 to |added|
      invariant r == members + set x | x in added[..i]
    {
      assert added[..i + 1] == added[..i] + [added[i]];
      r := r + {added[i]};
    }
    assert added[..|added|] == added;
  }

  method Retract(members: set<Bytes>, removed: seq<Bytes>) returns (r: set<Bytes>)
    ensures r == members - set x | x in removed
  {
    r := members;
    for i := 0 to |removed|
      invariant r == members - set x | x in removed[..i]
    {
      assert removed[..i + 1] == removed[..i] + [removed[i]];
      r := r - {removed[i]};
    }
    assert removed[..|removed|] == removed;
  }

  method Apply(sha: Sha, start: Membership, startIndex: nat, records: seq<Generation>)
    returns (r: Result<Membership, DeltaError>)
    requires Valid(start)
    ensures r == Err(Empty) <==> records == []
    ensures r.Err? && r.error.NotContiguous? ==>
              exists i: nat :: FirstGap(startIndex, records, i)
                && r.error == NotContiguous(startIndex + 1 + i, records[i].index)
    ensures r.Err? && r.error.RootMismatch? ==>
              && records != [] && Contiguous(startIndex, records)
              && r.error == RootMismatch(MembershipRoot(sha, After(start, records)), Last(records).snapshot)
    ensures r.Ok? <==> Accepted(sha, start, startIndex, records)
    ensures r.Ok? ==> r.value == After(start, records)
  {
    if records == [] {
      return Err(Empty);
    }
    var last := Last(records);
    var members := Elements(start);
    for i := 0 to |records|
      invariant Contiguous(startIndex, records[..i])
      invariant members == Replay(Elements(start), records[..i])
    {
      var record, expected := records[i], startIndex + 1 + i;
      if record.index != expected {
        assert FirstGap(startIndex, records, i);
        return Err(NotContiguous(expected, record.index));
      }
      members := Extend(members, record.added);
      members := Retract(members, record.removed);
      assert Init(records[..i + 1]) == records[..i];
    }
    assert records[..|records|] == records;
    var result := FromSet(members);
    var computed := MembershipRoot(sha, result);
    if computed != last.snapshot {
      return Err(RootMismatch(computed, last.snapshot));
    }
    r := Ok(result);
  }

  /** When a delta is accepted: it is unbroken and leads to the root the last
      record declares. */
  ghost predicate Accepted(sha: Sha, start: Membership, startIndex: nat, records: seq<Generation>) {
    && records != [] && Contiguous(startIndex, records)
    && MembershipRoot(sha, After(start, records)) == Last(records).snapshot
  }

  // --------------------------------------------------------- self-verification

  /** An accepted delta leads to the membership whose root was declared: a peer
      that adds, omits or substitutes anything is refused. */
  lemma {:induction false} SelfVerifying(
      sha: Sha, q: set<Bytes>, start: Membership, startIndex: nat, records: seq<Generation>, target: Membership)
    requires Valid(start) && Accepted(sha, start, startIndex, records)
    requires Last(records).snapshot == MembershipRoot(sha, target)
    requires MembershipHashedIn(sha, After(start, records), q) && MembershipHashedIn(sha, target, q)
    requires CollisionFree(sha, q)
    ensures After(start, records) == target
  {
    MembershipBinding(sha, q, After(start, records), target);
  }

  // -------------------------------------------------------------------- diff

  function Without(s: seq<Bytes>, other: seq<Bytes>): (r: seq<Bytes>)
    ensures forall x :: x in r <==> x in s && x !in other
  {
    if s == [] then []
    else
      assert s == [s[0]] + s[1..];
      (if s[0] in other then [] else [s[0]]) + Without(s[1..], other)
  }

  datatype Difference = Difference(added: seq<Bytes>, removed: seq<Bytes>)

  function Diff(previous: Membership, next: Membership): Difference {
    Difference(Without(next.members, previous.members), Without(previous.members, next.members))
  }

  /** A difference is in sorted order, so a record built from it is determined. */
  lemma {:induction false} WithoutIncreasing(s: seq<Bytes>, other: seq<Bytes>)
    requires Increasing(s)
    ensures Increasing(Without(s, other))
  {
    if s != [] {
      WithoutIncreasing(s[1..], other);
      var rest := Without(s[1..], other);
      if s[0] !in other {
        forall i | 0 <= i < |rest| ensures Less(s[0], rest[i]) {
          assert rest[i] in s[1..];
        }
        IncreasingCons(s[0], rest);
      }
    }
  }

  /** Replaying a difference turns one membership into the other. */
  lemma {:induction false} DiffStep(previous: Membership, next: Membership, record: Generation)
    requires record.added == Diff(previous, next).added && record.removed == Diff(previous, next).removed
    ensures Step(Elements(previous), record) == Elements(next)
  {
  }

  // -------------------------------------------------------------- honest runs

  /** Records that declare each change between successive memberships. */
  ghost predicate Honest(sha: Sha, states: seq<Membership>, startIndex: nat, records: seq<Generation>) {
    && |states| == |records| + 1
    && (forall i :: 0 <= i < |states| ==> Valid(states[i]))
    && Contiguous(startIndex, records)
    && (forall i :: 0 <= i < |records| ==>
          && records[i].added == Diff(states[i], states[i + 1]).added
          && records[i].removed == Diff(states[i], states[i + 1]).removed
          && records[i].snapshot == MembershipRoot(sha, states[i + 1]))
  }

  lemma {:induction false} HonestReplay(
      sha: Sha, states: seq<Membership>, startIndex: nat, records: seq<Generation>, n: nat)
    requires Honest(sha, states, startIndex, records) && n <= |records|
    ensures Replay(Elements(states[0]), records[..n]) == Elements(states[n])
  {
    if n > 0 {
      HonestReplay(sha, states, startIndex, records, n - 1);
      assert Init(records[..n]) == records[..n - 1];
      DiffStep(states[n - 1], states[n], records[n - 1]);
    }
  }

  /** An honest delta is always accepted and leads to the last membership. */
  lemma {:induction false} HonestAccepted(sha: Sha, states: seq<Membership>, startIndex: nat, records: seq<Generation>)
    requires Honest(sha, states, startIndex, records) && records != []
    ensures After(states[0], records) == Last(states)
    ensures Accepted(sha, states[0], startIndex, records)
  {
    HonestReplay(sha, states, startIndex, records, |records|);
    assert records[..|records|] == records;
    FromSetOfElements(Last(states));
  }

  /** Catching up from any generation equals replaying from the first. */
  lemma {:induction false} CatchUp(chain: seq<Generation>, k: nat)
    requires k < |chain|
    ensures After(FromSet(Replay({}, chain[..k + 1])), chain[k + 1..]) == FromSet(Replay({}, chain))
  {
    ReplayConcat({}, chain[..k + 1], chain[k + 1..]);
    assert chain == chain[..k + 1] + chain[k + 1..];
  }
}
