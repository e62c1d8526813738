# Publet, verified

A model in Dafny of the parts of Publet that everything else rests on, with
proofs of what those parts are for.  Publet is a network of signed, immutable
objects named by their hashes; its own algorithms keep logs and sets that can be
checked from a single root, weigh trust in whole numbers, build trees of sources
into objects, and rewrite a corpus without losing a reference.

Each module follows one source file, or one part of it:

- `Log`, `Consistency` and `ClosedForm` are the Merkle log of RFC 6962 section
  2.1: a recursive prover, and verifiers that loop over bits.  The two are shown
  to agree for every pair of sizes.  `LogBytes` says what is hashed.
- `Membership` is a sorted set proved against a log root.  A proof states a size
  that no root commits to; proofs of absence are sound whatever size they state.
- `Delta` and `Corpus` are a set advanced by records and checked by its last root.
- `Fixed` and `Propagate` are trust in fixed point: rounds of a truncating PageRank.
  `PropagateAge` says what age does to an edge, `PropagateMass` and `PropagateLaws`
  bound what a set of nodes can hold, `PropagateReach` and `PropagateOrder` say what
  cannot matter, and `PropagateExact`, `ExactSums`, `PropagateLoss` and
  `PropagateCost` set the rounds beside exact arithmetic, from above and from below.
- `Graph` and `Topological` are the walks, and the order that names a cycle;
  `BreadthFirst` and `TopologicalLaws` say which order each takes.
- `Build`, `BuildSteps`, `BuildLaws` and `TreeBuild` are the incremental build
  against a lock.
- `Migrate` and `MigrateKeys` are the rewriting of a content-addressed corpus in
  dependency order.
- `Tree`, `TreeBytes`, `TreeOrder`, `Cid`, `CidBytes`, `Dates`, `DatesForms`, `H3`,
  `H3Bits` and `H3Count` are encodings: trees with a single hash, identifiers as text,
  instants, and a bit-packed hierarchy of cells.
- `Bits`, `Hashing`, `Ordering`, `Seqs` and `Wrappers` are what they share.

Loops, and objects updated in place, are methods and classes, each proved to
compute a function; the properties are lemmas about that function.

Texts are byte strings in UTF-8, whose order is the one Rust compares strings in,
except where only ASCII is read and a Dafny string is plainer.  The digest is a
parameter.  It has collisions, its range being finite, so a binding theorem names
a finite set of strings that were hashed and assumes that among those no two
collide: were the conclusion false, that set would hold a collision.

Where a promise does not hold of the code as it is, a lemma shows an input, and
another states when it does hold:

- the index a proof of presence claims: `Membership.PresentIndexFree` and
  `Membership.PresentIndexExact`;
- that building again makes nothing: `Build.TwiceTracked`,
  `BuildLaws.UnsteadyBuild` and `BuildLaws.RebuildExactly`;
- that a migrated object names all it named: `Migrate.GroundsLostExample`,
  `Migrate.GroundsLost`, `Migrate.ImageNames` and `Migrate.ReferencesExactly`;
- that what no seed reaches cannot matter: `PropagateReach.UnreachedStops` and
  `PropagateReach.NonInterference`;
- that the order of edges and seeds does not matter: `PropagateOrder.OrderMatters`
  and `PropagateOrder.OrderIrrelevant`;
- that a hash commits to a tree: `Tree.LeafPosesAsBranch` and `Tree.TreeBinding`;
- that `leaves` lists in sorted path order, as its documentation says; the code
  lists component by component: `Tree.NotInTextOrder` and
  `TreeOrder.InTextOrderExactly`;
- that a text decodes to what encodes as it: `Cid.OneLetter` and
  `Cid.EncodeDecode`;
- that an instant read is the instant written: `Dates.NotEveryDayIsReal`,
  `Dates.LooseForms`, `Dates.LeapSecond` and `Dates.PrintsBackExactly`.  The
  documentation of `epoch_of` speaks of RFC 3339 section 5.6; the code does not look
  at what stands between hours, minutes and seconds, and lets a number begin with a
  plus sign, and so does the model.

## Model

| member | source | states |
|---|---|---|
| `Log.Split` | crates/publet-algorithms/src/log.rs:83-96 | the result is below the length and at least half of it |
| `Log.SplitWord` | crates/publet-algorithms/src/log.rs:83-90 | computed by leading zeros it is the split for every 64-bit length above one, without the shift leaving the word |
| `Log.SplitUnique` | crates/publet-algorithms/src/log.rs:83-96 | it is the one power of two strictly below a length and at least half of it |
| `Log.Descend` | crates/publet-algorithms/src/log.rs:241-253 | the descent loop records exactly the turns from the root to the leaf |
| `Log.Fold` | crates/publet-algorithms/src/log.rs:259-266 | the fold loop computes the siblings folded against those turns reversed |
| `Log.ClimbIsRebuild` | crates/publet-algorithms/src/log.rs:230-267 | folding from the leaf up is what the tree hash computes from the top down |
| `Log.VerifyInclusion` | crates/publet-algorithms/src/log.rs:230-267 | the verdict, exactly: index in range, one sibling per turn, and the rebuilt root is the expected one |
| `Log.InclusionComplete` | crates/publet-algorithms/src/log.rs:116-168 | every generated audit path is accepted, for every tree and index |
| `Log.DepthBounded` | crates/publet-algorithms/src/log.rs:149-168 | a path is no longer than the logarithm of the size rounded up |
| `Log.InclusionBinding` | crates/publet-algorithms/src/log.rs:230-267 | accepted at the true size, the leaf is the one at that index and the path is the generated one, unless two hashed strings collide |
| `Log.RootBinding` | crates/publet-algorithms/src/log.rs:116-126 | equal roots at one size have equal leaves, unless two hashed strings collide |
| `Log.EntriesBinding` | crates/publet-algorithms/src/log.rs:116-126 | equal roots over hashed entries have equal entries even when the lengths differ, unless two hashed strings collide |
| `LogBytes.RootOfFew` | crates/publet-algorithms/src/log.rs:52-126 | the root of nothing is the digest of nothing, of one entry that of a zero byte and the entry |
| `LogBytes.RootOfTwo` | crates/publet-algorithms/src/log.rs:72-126 | the root of two leaves is the digest of a one byte, the first and the second |
| `LogBytes.RootAtPower` | crates/publet-algorithms/src/log.rs:83-126 | of more, the digest of a one byte, the root of the largest power of two below their number, and the root of the rest |
| `LogBytes.VerdictOfTwo` | crates/publet-algorithms/src/log.rs:230-267 | the verdict on either leaf of a tree of two, in the bytes hashed |
| `LogBytes.VerdictAtPower` | crates/publet-algorithms/src/log.rs:230-267 | the last of a path is the root of the part the leaf is not in, hashed on its side; what comes before it is a path in the other |
| `LogBytes.PastTheEnd` | crates/publet-algorithms/src/log.rs:149-168 | an index past the end has no path and is in no tree |
| `LogBytes.ExamplePaths` | crates/publet-algorithms/src/log.rs:149-168 | the audit paths of the example of RFC 6962 section 2.1.3, sibling by sibling |
| `Consistency.RecoverHonest` | crates/publet-algorithms/src/log.rs:291-321 | from the siblings a proof carries the old and the new root are both recovered |
| `Consistency.SubproofShape` | crates/publet-algorithms/src/log.rs:302-321 | a subproof is the shared subtree's root and then its siblings, in order |
| `Consistency.SubproofShapeStart` | crates/publet-algorithms/src/log.rs:302-321 | the root is left out exactly when the old tree is complete, where it is the old root |
| `Consistency.ConsistencyComplete` | crates/publet-algorithms/src/log.rs:291-321 | every generated proof is accepted, for every leaf sequence and every smaller or equal size |
| `Consistency.ConsistencyBinding` | crates/publet-algorithms/src/log.rs:396-451 | an accepted proof between real trees means the old leaves are the first of the new ones, unless two hashed strings collide |
| `LogBytes.ExampleConsistency` | crates/publet-algorithms/src/log.rs:291-321 | the consistency proofs of the example of RFC 6962 section 2.1.3, hash by hash |
| `LogBytes.NothingToProve` | crates/publet-algorithms/src/log.rs:291-301 | no proof from nothing, to the tree itself, or to more than there is |
| `LogBytes.VerdictAtEnds` | crates/publet-algorithms/src/log.rs:396-416 | the verdicts for sizes out of order, for equal sizes and from nothing |
| `LogBytes.VerdictOneToTwo` | crates/publet-algorithms/src/log.rs:396-451 | the verdict from one leaf to two, in the bytes hashed |
| `LogBytes.VerdictOfFew` | crates/publet-algorithms/src/log.rs:396-451 | the verdicts from two to three and from three to four, in the bytes hashed |
| `ClosedForm.FoldInner` | crates/publet-algorithms/src/log.rs:337-347 | the loop over the path computes the fold by the index bits |
| `ClosedForm.FoldInnerRight` | crates/publet-algorithms/src/log.rs:350-358 | the loop folds only where the index bit is set |
| `ClosedForm.FoldBorderRight` | crates/publet-algorithms/src/log.rs:360-363 | every sibling is folded on the left |
| `ClosedForm.ClosedFormIsDescent` | crates/publet-algorithms/src/log.rs:328-363 | for every index below size the two parts count the turns of the descent, and folding by bits then border is folding by the recorded sides |
| `ClosedForm.FoldIsDescent` | crates/publet-algorithms/src/log.rs:230-267 | the same against the recursive rebuild, on unbounded sizes |
| `ClosedForm.LevelsByBits` | crates/publet-algorithms/src/log.rs:417-435 | the subtraction never goes below zero and the expected proof length is the number of levels of the recursive descent |
| `ClosedForm.FoldIsRecover` | crates/publet-algorithms/src/log.rs:436-451 | both straight folds recover the same old and new roots as the recursive reading of the proof |
| `ClosedForm.VerifyConsistency` | crates/publet-algorithms/src/log.rs:396-451 | the verdict, exactly, in every branch: sizes, lengths and both roots; no shift reaches the word width |
| `Membership.New` | crates/publet-algorithms/src/membership.rs:65-70 | sorted without repeats, and holding exactly the values given |
| `Membership.NewIsCanonical` | crates/publet-algorithms/src/membership.rs:65-70 | two lists make one membership if and only if they hold the same values |
| `Membership.Search` | crates/publet-algorithms/src/membership.rs:171-199 | the place of a member, or the place between all smaller and all greater values, as a search of the sorted list reports it |
| `Membership.ProveAccepted` | crates/publet-algorithms/src/membership.rs:171-272 | the proof made for any value is accepted, and it is of presence exactly for members |
| `Membership.ProveIs` | crates/publet-algorithms/src/membership.rs:171-199 | what the prover makes: the true place and path, or the members to each side, with the true size |
| `Ordering.LessExactly` | crates/publet-algorithms/src/membership.rs:171-199 | texts are ordered by their first difference, a beginning before what it begins |
| `Membership.Verify` | crates/publet-algorithms/src/membership.rs:227-272 | the verdict, exactly, for presence, absence, and each missing neighbour |
| `Membership.ClaimPosition` | crates/publet-algorithms/src/membership.rs:227-272 | whatever size is claimed, an accepted entry is a real member reached by the same turns, by its own path |
| `Membership.ClaimAdjacent` | crates/publet-algorithms/src/membership.rs:239-272 | whatever size is claimed, neighbouring claimed positions are neighbouring real positions |
| `Membership.ClaimFirst` | crates/publet-algorithms/src/membership.rs:239-272 | whatever size is claimed, the first claimed position is the first real one |
| `Membership.ClaimLast` | crates/publet-algorithms/src/membership.rs:239-272 | whatever size is claimed, the last claimed position is the last real one |
| `Membership.PresenceSound` | crates/publet-algorithms/src/membership.rs:227-238 | an accepted proof of presence is of a member |
| `Membership.AbsenceSound` | crates/publet-algorithms/src/membership.rs:239-272 | an accepted proof of absence is of a value that is no member, even when its size is wrong |
| `Membership.NeverBoth` | crates/publet-algorithms/src/membership.rs:227-272 | no value has both an accepted proof of presence and one of absence |
| `Membership.MembershipBinding` | crates/publet-algorithms/src/membership.rs:142-144 | equal roots are equal memberships, unless two hashed strings collide |
| `Membership.PresenceExact` | crates/publet-algorithms/src/membership.rs:227-238 | acceptance of presence, if and only if: a real position of the member reached by the claimed turns, with its own path |
| `Membership.AbsenceExact` | crates/publet-algorithms/src/membership.rs:239-272 | acceptance of absence, if and only if: nothing shown of an empty membership, or real members claimed side by side, or first, or last, with the value where it would be |
| `Membership.PresentIndexExact` | crates/publet-algorithms/src/membership.rs:227-238 | the index a proof claims is the member's place if and only if the true size turns the same way there |
| `Membership.PresentIndexFree` | crates/publet-algorithms/src/membership.rs:227-238 | for any three members in order, an accepted proof of the last whose index is not its place |
| `Delta.DiffStep` | crates/publet-algorithms/src/membership.rs:291-305 | adding what a difference adds and removing what it removes turns one membership into the other |
| `Delta.WithoutIncreasing` | crates/publet-algorithms/src/membership.rs:291-305 | a difference is in sorted order |
| `Delta.Extend` | crates/publet-domain/src/delta.rs:71-73 | adds every value listed and nothing else |
| `Delta.Retract` | crates/publet-domain/src/delta.rs:74-76 | removes every value listed and nothing else |
| `Delta.LastMention` | crates/publet-domain/src/delta.rs:58-78 | a value is in the result as the last record to mention it says, and out where one both adds and removes it |
| `Delta.Apply` | crates/publet-domain/src/delta.rs:54-90 | accepted exactly when there are records, their indexes run on, and the last root is that of the replay; each error names the first gap or the two roots |
| `Delta.SelfVerifying` | crates/publet-domain/src/delta.rs:54-90 | an accepted delta whose last root is that of a membership leads to that membership, unless two hashed strings collide |
| `Delta.HonestAccepted` | crates/publet-domain/src/delta.rs:54-90 | a chain of differences between successive memberships is accepted and leads to the last of them |
| `Delta.CatchUp` | crates/publet-domain/src/delta.rs:54-90 | catching up from any generation equals a replay from the first |
| `Corpus.Ancestry` | porcelain/src/corpus.rs:350-361 | the chain behind a generation; an error exactly when none exists, naming an identifier not held or one that is its own ancestor |
| `Corpus.MembersOf` | porcelain/src/corpus.rs:350-370 | the members are the chain replayed from its first record; it fails exactly when there is no such chain |
| `Corpus.NextRecord` | porcelain/src/corpus.rs:438-518 | nothing when nothing changed, refused exactly when a member was lost, and otherwise the next record with its index, parent, root and additions in order |
| `Corpus.Corpus.constructor` | porcelain/src/corpus.rs:438-449 | a corpus with nothing published |
| `Corpus.Corpus.Advance` | porcelain/src/corpus.rs:438-518 | in place: over the bound, not closed, unchanged, lost or one more generation, each exactly when; the record published, field by field; everything published before is kept |
| `Corpus.PublishedStep` | porcelain/src/corpus.rs:438-518 | publishing the next record keeps every earlier record as it was published |
| `Corpus.PublishedMembers` | porcelain/src/corpus.rs:350-370 | over any run of advances, replaying generation i gives exactly the members published at i |
| `Corpus.PublishedGrows` | porcelain/src/corpus.rs:438-518 | over any run of advances members are only gained |
| `Corpus.PublishedCatchUp` | porcelain/src/corpus.rs:438-518 | a reader at any generation accepts the records after it and ends at the last members |
| `Fixed.TimesRoundsDown` | crates/publet-algorithms/src/fixed.rs:149-151 | a product of non-negative numbers that fits rounds down, by less than one unit |
| `Fixed.TimesSigned` | crates/publet-algorithms/src/fixed.rs:149-151 | signs pass through a product, so it rounds towards zero |
| `Fixed.TimesSaturates` | crates/publet-algorithms/src/fixed.rs:149-151 | a product that does not fit is rescaled from the nearest word |
| `Fixed.AddNearest` | crates/publet-algorithms/src/fixed.rs:257-269 | a sum or difference is exact or the nearest word |
| `Fixed.MulDivSigned` | crates/publet-algorithms/src/fixed.rs:127-133 | signs pass through a quotient, and anything over zero is zero |
| `Fixed.ShareRoundsDown` | crates/publet-algorithms/src/fixed.rs:127-133 | a part scaled by a whole rounds down, even when the scaled part saturates |
| `Fixed.OverflowsExactly` | crates/publet-algorithms/src/fixed.rs:127-133 | the quotient leaves the word exactly when the least word is divided by minus one |
| `Fixed.HalveFractional` | crates/publet-algorithms/src/fixed.rs:233-254 | the loop and the line after it compute the decay on either side of zero, or overflow exactly when the product on the way leaves the word |
| `Fixed.SmallDecays` | crates/publet-algorithms/src/fixed.rs:245-253 | below 2^63 no decay overflows |
| `Fixed.OlderIsLess` | crates/publet-algorithms/src/fixed.rs:233-254 | a day more of age never adds weight |
| `PropagateAge.NoDecay` | crates/publet-algorithms/src/propagate.rs:179-193 | without a half-life age does nothing to an edge |
| `PropagateAge.WholeHalfLives` | crates/publet-algorithms/src/propagate.rs:179-193 | after some half-lives an edge carries its weight halved as often, and nothing from 127 on |
| `PropagateAge.BetweenHalfLives` | crates/publet-algorithms/src/propagate.rs:179-193 | between half-lives it carries what lies on the line to the next halving, less than a unit off |
| `PropagateAge.OlderSharesLess` | crates/publet-algorithms/src/propagate.rs:179-208 | of two edges of one weight from one node the older never has the larger share |
| `PropagateAge.Example` | crates/publet-algorithms/src/propagate.rs:169-241 | a whole run, number by number: one seed, two edges, one of them a half-life old |
| `Propagate.Applicable` | crates/publet-algorithms/src/propagate.rs:155-167 | exactly the edges that are not confined to subjects or are confined to one asked for |
| `Propagate.ApplicableIs` | crates/publet-algorithms/src/propagate.rs:155-167 | each edge that applies stays in its place and as often |
| `Propagate.Normalize` | crates/publet-algorithms/src/propagate.rs:179-208 | the nested loops build each node's shares of its decayed outgoing weight, or overflow exactly when a decay or a share does |
| `Propagate.GroupedAt` | crates/publet-algorithms/src/propagate.rs:179-193 | a node has a row exactly if an edge leaves it, and the row adds up its edges alone |
| `Propagate.OneRound` | crates/publet-algorithms/src/propagate.rs:214-234 | one round: the seeds scaled by what damping leaves, and each node's damped shares, key by key |
| `Propagate.PropagateAll` | crates/publet-algorithms/src/propagate.rs:169-241 | for any weights, the outcome: that many rounds from the seed vector, zeros dropped, or nothing exactly when a decay or a share overflows |
| `Propagate.PropagateWithin` | crates/publet-algorithms/src/propagate.rs:155-167 | the same over the edges that apply |
| `Propagate.SoundRuns` | crates/publet-algorithms/src/propagate.rs:86-94 | weights that are not negative overflow only where a decay does |
| `PropagateMass.AccumulateSaturates` | crates/publet-algorithms/src/propagate.rs:170-194 | amounts that are not negative add up, key by key, to the nearest word to their exact sum |
| `PropagateLaws.SharesBounded` | crates/publet-algorithms/src/propagate.rs:195-208 | shares of a total are not negative and add up to one at most |
| `PropagateLaws.RoundItemsFit` | crates/publet-algorithms/src/propagate.rs:210-234 | all a round adds up comes to one at most, so no sum in it saturates |
| `PropagateLaws.RoundMass` | crates/publet-algorithms/src/propagate.rs:210-234 | a round keeps the total at one at most, and any set of nodes holds at most its seeds' part and the damped weight of the nodes that feed it |
| `PropagateLaws.Conserved` | crates/publet-algorithms/src/propagate.rs:169-241 | after every round each weight is not negative and the total is one at most |
| `PropagateLaws.CutBound` | crates/publet-algorithms/src/propagate.rs:169-241 | a set without seeds holds after each round at most the damped weight it held and that of the outside nodes with an edge into it, whatever its internal edges |
| `PropagateCost.RoundingCost` | crates/publet-algorithms/src/propagate.rs:169-241 | after every round all nodes together are short of the exact rational iteration by at most a cost told from the numbers of seeds and edges and the damping |
| `PropagateCost.EachNodeCost` | crates/publet-algorithms/src/propagate.rs:169-241 | so no node is above its exact weight, or below it by more than that cost |
| `PropagateCost.CostBounded` | crates/publet-algorithms/src/propagate.rs:169-241 | the cost grows at most with the number of rounds, and below damping of one stays under a bound that does not depend on it |
| `PropagateCost.ResultIs` | crates/publet-algorithms/src/propagate.rs:236-240 | the answer is the weights after the last round without those of zero |
| `PropagateCost.ResultCost` | crates/publet-algorithms/src/propagate.rs:169-241 | and so within the cost of exact arithmetic after as many rounds |
| `PropagateLoss.RoundLoses` | crates/publet-algorithms/src/propagate.rs:210-234 | one round loses at most one for each seed, three for each target, and of what was lost before the part it passes on |
| `PropagateExact.RoundsDown` | crates/publet-algorithms/src/propagate.rs:169-241 | after every round each weight is at most that of the exact rational iteration with exact shares |
| `PropagateReach.ReachedDecides` | crates/publet-algorithms/src/propagate.rs:155-241 | the outcome of a run is that of the edges leaving what the seeds reach, or nothing exactly when something outside overflows |
| `PropagateReach.NonInterference` | crates/publet-algorithms/src/propagate.rs:155-241 | two edge lists that agree on the edges leaving what the seeds reach have one outcome if and only if what no seed reaches overflows in both or neither, or what it reaches overflows |
| `PropagateReach.UnreachedSound` | crates/publet-algorithms/src/propagate.rs:86-94 | where no weight is negative, what no seed reaches overflows exactly when one of its decays does |
| `PropagateReach.NeverInterferes` | crates/publet-algorithms/src/propagate.rs:155-241 | so edges with weights from zero to 2^63, or without decay, can be added or removed at will where no seed reaches |
| `PropagateReach.UnreachedStops` | crates/publet-algorithms/src/propagate.rs:86-94 | one edge that no seed reaches stops a run |
| `PropagateReach.ResultWithinHops` | crates/publet-algorithms/src/propagate.rs:169-241 | a node with weight is within as many hops of a seed as there are rounds |
| `PropagateOrder.OrderIrrelevant` | crates/publet-algorithms/src/propagate.rs:169-241 | permuting the seeds and the edges changes nothing, not even whether there is an answer, when no weight is negative, or when the sizes of the weights together fit a word |
| `PropagateOrder.OrderMatters` | crates/publet-algorithms/src/propagate.rs:169-177 | otherwise it can: three seeds whose order changes the answer |
| `Build.Substitute` | porcelain/src/build.rs:960-1067 | every slot filled in order, or the first error |
| `Build.CellOf` | porcelain/src/build.rs:1018-1043 | a tracking item comes out with a version, and only a tracking item does |
| `BuildSteps.CellFilled` | porcelain/src/build.rs:965-1067 | what each kind of reference is filled with: the version or the lineage it names, and for a tracking item the version named, or recorded before by the first item on the lineage, or current |
| `BuildSteps.Unfillable` | porcelain/src/build.rs:965-990 | a reference that cannot be filled is to a node not built or to another corpus |
| `BuildSteps.BuiltFilled` | porcelain/src/build.rs:193-255 | after a build each name's object has its source's kind and content, and each reference filled so from what the build resolved and the prior version held |
| `BuildSteps.TracksCurrent` | porcelain/src/build.rs:1018-1036 | an item that tracks a node, names no version and had none recorded holds its lineage and the version just built |
| `Build.CellsAgain` | porcelain/src/build.rs:960-1067 | filled again from names that agree and from their own outcome, slots come out the same if and only if they are steady |
| `Build.SteadyWhenDistinct` | porcelain/src/build.rs:1156-1173 | items that each track a lineage of their own are steady |
| `Build.TwiceTracked` | porcelain/src/build.rs:1156-1173 | two items on one lineage, the second without a version of its own, are filled differently the second time, under any name |
| `Build.Genesis` | porcelain/src/build.rs:1181-1193 | the loop is the walk along lowest superseded identifiers |
| `Build.WalkEnds` | porcelain/src/build.rs:1181-1193 | the walk ends at a version that supersedes nothing, or where a cycle closes |
| `BuildSteps.GenesisEnds` | porcelain/src/build.rs:1181-1193 | each step goes to the least version superseded, until there is none or one passed comes again |
| `Build.Build.Admit` | porcelain/src/build.rs:945-955 | in place: the object inserted and pending unless held, or refused |
| `Build.Build.Node` | porcelain/src/build.rs:782-876 | in place: the whole step, the version kept or published, its edge, its genesis and its report, in every branch |
| `Build.Build.PublishVersion` | porcelain/src/build.rs:837-876 | in place: a new version and its supersedes edge |
| `BuildSteps.PriorIs` | porcelain/src/build.rs:880-890 | the version revised is the lock's, or else the source's; a lock entry that is no identifier is an error |
| `BuildSteps.Kept` | porcelain/src/build.rs:818-834 | a held version that still says what the source says is kept, and nothing is published |
| `BuildSteps.KeptLineage` | porcelain/src/build.rs:894-900 | with the lineage the lock records, or where the walk back ends |
| `BuildSteps.FirstVersion` | porcelain/src/build.rs:837-876 | a first version: author, date, content, lineage, status and what is recorded, held already or not |
| `BuildSteps.Revision` | porcelain/src/build.rs:837-876 | a revision: the new version and an edge from it to the old one, their author and date, the order they are stored in, and revised or proposed as the graph finds the edge |
| `BuildSteps.RevisionHeld` | porcelain/src/build.rs:844-865 | one whose version or edge is held already adds only the other |
| `BuildSteps.RevisionLineage` | porcelain/src/build.rs:852-874 | the new version supersedes the old one alone, and its lineage is the lock's or began where the old one's did |
| `BuildSteps.StepFails` | porcelain/src/build.rs:782-816 | a lock entry, a reference, a version not held and one of another kind, looked at in this order |
| `BuildSteps.StepRefused` | porcelain/src/build.rs:945-955 | a version the graph does not accept is refused |
| `BuildSteps.EdgeRefused` | porcelain/src/build.rs:945-955 | and so is an edge |
| `TreeBuild.RefsOf` | porcelain/src/build.rs:456-499 | every name a node refers to, in the order of its source |
| `BuildSteps.NamesAre` | porcelain/src/build.rs:456-499 | which are exactly those its references give |
| `TreeBuild.Resolve` | porcelain/src/build.rs:579-605 | success if and only if every name is declared; otherwise the first node with a name that nothing declares, and its first such name |
| `TreeBuild.Ordered` | porcelain/src/build.rs:610-621 | the walk from all names in their order: every node once and after all it refers to, or a real cycle |
| `TreeBuild.BuildTree` | porcelain/src/build.rs:193-255 | success if and only if the nodes can be ordered, every step in that order succeeds and the tree is valid; each error names the condition that failed, with its witness, and is never that a name is not built yet |
| `TreeBuild.NextBuilt` | porcelain/src/build.rs:965-974 | at every step of such an order whatever the node names is built |
| `BuildLaws.RebuildMakesNothing` | porcelain/src/build.rs:193-255 | rebuilding the same sources against the lock just written publishes nothing, writes the same lock and reports every node unchanged |
| `BuildLaws.RebuildExactly` | porcelain/src/build.rs:193-255 | it makes nothing if and only if every document came out steady |
| `BuildLaws.UnsteadyBuild` | porcelain/src/build.rs:1156-1173 | a whole build, under any name and way of identifying, in which a document comes out unsteady |
| `BuildLaws.MinimalRevision` | porcelain/src/build.rs:782-1067 | after any edits, a node neither edited nor unsteady, that carries the version of none that is, directly or through others, keeps its lock entry and is reported unchanged |
| `BuildLaws.GenesisKept` | porcelain/src/build.rs:894-900 | a name the lock knows keeps its genesis |
| `BuildLaws.NewLineage` | porcelain/src/build.rs:852-874 | a name the lock does not know, with no prior, has its own version for genesis |
| `BuildLaws.GenesisConstant` | porcelain/src/build.rs:894-900 | over any run of builds in which a name is not dropped its genesis is one |
| `Graph.Reachable` | crates/publet-algorithms/src/graph.rs:37-53 | the queue loop lists the breadth-first walk |
| `Graph.ReachesTarget` | crates/publet-algorithms/src/graph.rs:79-96 | found exactly when the walk holds the target |
| `Graph.Closure` | crates/publet-algorithms/src/graph.rs:133-156 | an error exactly when an edge from a walked node leads back to the start; otherwise the walk without the start, in the same order |
| `Graph.BfsExact` | crates/publet-algorithms/src/graph.rs:37-96 | the walk lists exactly the reachable nodes, each once |
| `Graph.BfsByDistance` | crates/publet-algorithms/src/graph.rs:37-53 | in the order of their distance from the start |
| `BreadthFirst.WalkOrder` | crates/publet-algorithms/src/graph.rs:7-53 | the start, then what its first node leads to, then what its second does, as given, each node where it is first met |
| `BreadthFirst.FirstOfHolds` | crates/publet-algorithms/src/graph.rs:37-53 | dropping repeats keeps everything once |
| `Graph.EdgeClosesCycle` | crates/publet-algorithms/src/graph.rs:79-96 | in an acyclic graph a new edge closes a cycle if and only if its target reaches its source |
| `Topological.Walk.constructor` | crates/publet-algorithms/src/graph.rs:232-242 | an empty walk |
| `Topological.Walk.Enter` | crates/publet-algorithms/src/graph.rs:243-258 | in place: marked visiting and put on the path |
| `Topological.Walk.Leave` | crates/publet-algorithms/src/graph.rs:266-274 | in place: marked done and placed once its dependencies are |
| `Topological.Walk.Visit` | crates/publet-algorithms/src/graph.rs:243-274 | in place: the node placed and the path as before, keeping that visiting nodes are exactly the path; or a cycle that closes |
| `Topological.TopologicalOrder` | crates/publet-algorithms/src/graph.rs:232-282 | an order holding exactly what the inputs reach, each once, dependencies first; an error is a reachable cycle; success if and only if there is none |
| `TopologicalLaws.NothingFirst` | crates/publet-algorithms/src/graph.rs:276-282 | nothing asked for is the empty order |
| `TopologicalLaws.OneByOne` | crates/publet-algorithms/src/graph.rs:179-282 | what is asked for is placed one after another: each next node brings its own order less what is there |
| `TopologicalLaws.DependenciesFirst` | crates/publet-algorithms/src/graph.rs:179-282 | a node's own order is that of its dependencies as it lists them, and then the node |
| `TopologicalLaws.CycleEntered` | crates/publet-algorithms/src/graph.rs:187-190 | the cycle named is the path that closes it: what was asked for leads into it without meeting itself |
| `Migrate.Referenced` | bin/pub-migrate/src/main.rs:82-101 | what was there and every text of the tree that the corpus holds |
| `Migrate.RewriteNames` | bin/pub-migrate/src/main.rs:104-121 | a rewritten tree names exactly the new names of what the tree names |
| `Migrate.WellFormedStays` | bin/pub-migrate/src/main.rs:124-146 | an object can be edited exactly when it is a map with a text type, whatever the mapping |
| `Migrate.EditNames` | bin/pub-migrate/src/main.rs:124-182 | exactly what an edited object names: what survives, and the text of an added scope |
| `Migrate.EditIdempotent` | bin/pub-migrate/src/main.rs:124-182 | a second edit finds nothing to do |
| `MigrateKeys.RewrittenAt` | bin/pub-migrate/src/main.rs:104-121 | rewriting changes no shape and no key, and each text to what the mapping gives |
| `MigrateKeys.RenamedIs` | bin/pub-migrate/src/main.rs:104-121 | which is the text itself where it gives nothing |
| `MigrateKeys.ImageIs` | bin/pub-migrate/src/main.rs:124-182 | the image key by key: every entry rewritten in its place, but for a scope added with its domain and conditions, and a basis moved to grounds |
| `Migrate.ImageNames` | bin/pub-migrate/src/main.rs:124-182 | exactly what the image of an object names, under any mapping: the new names of whatever is not written over, and the text of an added scope |
| `Migrate.ReferencesKept` | bin/pub-migrate/src/main.rs:124-182 | unless an annotation's judgement has both a basis and grounds, each name is in the image under its new name |
| `Migrate.GroundsLost` | bin/pub-migrate/src/main.rs:171-182 | under any mapping, one that has both loses what its grounds alone name |
| `Migrate.GroundsLostExample` | bin/pub-migrate/src/main.rs:171-182 | a concrete object that loses a reference |
| `Migrate.IsReady` | bin/pub-migrate/src/main.rs:233-241 | ready exactly when every other held object it names is in the mapping |
| `Migrate.MigrateAll` | bin/pub-migrate/src/main.rs:220-264 | success if and only if every object is well formed and no set of objects waits for itself or for a skipped one; an ordering error carries the largest such set, in order; what it migrates is in rounds, each in order of identifiers and each object in the first where all it needs comes before it |
| `Migrate.MigrateReady` | bin/pub-migrate/src/main.rs:233-250 | one object: its image under the mapping known by then, encoded and identified, or why it has none |
| `Migrate.OneRound` | bin/pub-migrate/src/main.rs:229-251 | one pass over what is pending: each is migrated at its turn or left for the next, and nothing was ready when nothing was migrated |
| `Migrate.BlockedExactly` | bin/pub-migrate/src/main.rs:220-264 | such a set exists if and only if some object names a skipped one or objects name each other in a cycle |
| `Migrate.FinalImages` | bin/pub-migrate/src/main.rs:220-264 | each object's bytes are those the final mapping gives, its own name apart |
| `Migrate.ReferencesExactly` | bin/pub-migrate/src/main.rs:220-264 | after a run an image names an identifier if and only if it is the new one of something the object names and is not written over, or is the text of an added scope |
| `Migrate.ReferencesPreserved` | bin/pub-migrate/src/main.rs:220-264 | every held reference to another object is in the image as that object's new identifier, unless the object's judgement has both a basis and grounds |
| `Migrate.NeedsComeFirst` | bin/pub-migrate/src/main.rs:220-264 | what an object needs is migrated before it |
| `Migrate.EachOnce` | bin/pub-migrate/src/main.rs:220-264 | no object is migrated twice |
| `Migrate.SecondRunIdentity` | bin/pub-migrate/src/main.rs:220-264 | any successful second run maps every identifier to itself and every object to the same bytes |
| `Tree.Commit` | crates/publet-algorithms/src/tree.rs:177-196 | the recursion with its growing buffer computes the tree hash |
| `TreeBytes.LeafHashed` | crates/publet-algorithms/src/tree.rs:177-179 | a leaf is the digest of a zero byte and its content |
| `TreeBytes.BranchHashed` | crates/publet-algorithms/src/tree.rs:180-194 | a branch is the digest of zero, two, its header's length and header, and for each child in order its name's length, its name and its hash |
| `TreeBytes.TwoChildren` | crates/publet-algorithms/src/tree.rs:180-194 | for instance, of two children |
| `TreeBytes.WordAt` | crates/publet-algorithms/src/tree.rs:182-191 | lengths are eight bytes, the lowest first |
| `TreeBytes.ShortLength` | crates/publet-algorithms/src/tree.rs:182-191 | for instance, of less than 256 |
| `Tree.BufferDecodes` | crates/publet-algorithms/src/tree.rs:181-193 | equal branch buffers have equal headers, names and child hashes |
| `Tree.WordsFit` | crates/publet-algorithms/src/tree.rs:182-191 | a length fits its eight bytes exactly when it is below 2^64 |
| `Tree.TreeBinding` | crates/publet-algorithms/src/tree.rs:177-196 | equal hashes if and only if the trees are alike but for leaves holding a branch's buffer, unless two hashed strings collide |
| `Tree.TreeHashCommits` | crates/publet-algorithms/src/tree.rs:177-196 | equal hashes are equal trees when no leaf begins with the branch tag, unless two hashed strings collide |
| `Tree.LeafPosesAsBranch` | crates/publet-algorithms/src/tree.rs:177-196 | otherwise every branch has a leaf with its hash |
| `Tree.FindJoined` | crates/publet-algorithms/src/tree.rs:213-219 | a joined path finds what its names lead to |
| `TreeBytes.JoinIs` | crates/publet-algorithms/src/tree.rs:198-259 | a joined path is its names with a slash between |
| `TreeBytes.FindTrailing` | crates/publet-algorithms/src/tree.rs:213-219 | a slash at the end makes no difference |
| `Tree.CollectLeaves` | crates/publet-algorithms/src/tree.rs:239-259 | the recursion appends exactly the listing of the node |
| `Tree.LeafPathsExact` | crates/publet-algorithms/src/tree.rs:239-259 | the listing holds exactly the paths with a leaf |
| `Tree.LeafPathsDistinct` | crates/publet-algorithms/src/tree.rs:239-259 | each sequence of names once |
| `Tree.ListedTextsDistinct` | crates/publet-algorithms/src/tree.rs:239-259 | each joined path once |
| `Tree.LeavesInOrder` | crates/publet-algorithms/src/tree.rs:239-259 | in component-wise order |
| `Tree.LeavesAreFound` | crates/publet-algorithms/src/tree.rs:213-259 | each listed path finds its leaf, and the hash listed is that leaf's |
| `Tree.NotInTextOrder` | crates/publet-algorithms/src/tree.rs:221-259 | a concrete tree whose listing is not in the order of the joined paths |
| `TreeOrder.InTextOrderExactly` | crates/publet-algorithms/src/tree.rs:221-259 | the listing is in the order of the joined paths if and only if no branch has a child with leaves under it overtaken by a sibling whose name goes on with a character before the slash |
| `Cid.Base32Lower` | crates/publet-core/src/cid.rs:285-303 | the loops with a 32-bit accumulator write exactly the five-bit groups of the bytes |
| `Cid.Base32LowerDecode` | crates/publet-core/src/cid.rs:305-337 | the loop reads exactly the whole bytes, or the first bad character, or a tail that is not zero |
| `Cid.ShiftInLow` | crates/publet-core/src/cid.rs:289-296 | shifting keeps the low digits whatever falls off the top of the word |
| `Cid.LetterValue` | crates/publet-core/src/cid.rs:277-277 | each letter of the alphabet decodes to its place in it |
| `CidBytes.AlphabetIs` | crates/publet-core/src/cid.rs:277-277 | letters from a, then digits from two |
| `CidBytes.CharIs` | crates/publet-core/src/cid.rs:305-322 | what each character is read as, or why it is not |
| `CidBytes.TextIsNumber` | crates/publet-core/src/cid.rs:285-303 | bytes and text are one number, of which the text has up to four binary noughts more |
| `CidBytes.DecodesNumber` | crates/publet-core/src/cid.rs:305-337 | text is read as its number, and refused if what is left over is not noughts |
| `CidBytes.FirstBad` | crates/publet-core/src/cid.rs:305-322 | or refused at its first bad character |
| `Cid.DecodeEncode` | crates/publet-core/src/cid.rs:285-337 | every byte string comes back from its text |
| `Cid.EncodeDecode` | crates/publet-core/src/cid.rs:285-337 | a text that decodes comes back from its bytes if and only if its length modulo 8 is 0, 2, 4, 5 or 7 |
| `Cid.OneLetter` | crates/publet-core/src/cid.rs:305-337 | one letter decodes to nothing |
| `Cid.DigestLength` | crates/publet-core/src/cid.rs:263-272 | 32 bytes come from 52 characters and nothing else |
| `Cid.ShowParse` | crates/publet-core/src/cid.rs:219-274 | an identifier that parses prints back its input |
| `Cid.ParseShow` | crates/publet-core/src/cid.rs:219-274 | every identifier parses from how it prints |
| `CidBytes.ShowIs` | crates/publet-core/src/cid.rs:219-223 | an identifier is written as the scheme, the algorithm and its digest |
| `CidBytes.ParseIs` | crates/publet-core/src/cid.rs:253-274 | what is wrong with text of three parts, in the order it is looked at |
| `CidBytes.ParseNot` | crates/publet-core/src/cid.rs:256-258 | and with any other |
| `Dates.Counts` | porcelain/src/corpus.rs:1413-1422 | the count follows the calendar: 1970-01-01 is day nought and each next real day is one more |
| `Dates.DateCounted` | porcelain/src/corpus.rs:1413-1446 | counting a real date and dating the count is the identity |
| `Dates.CountDated` | porcelain/src/corpus.rs:1413-1446 | dating a count gives a real date from 1970 on, and counting it is the identity |
| `Dates.YearParts` | porcelain/src/corpus.rs:1435-1440 | the year found within an era is the year of its centuries, olympiads and years |
| `DatesForms.From1970` | porcelain/src/corpus.rs:1413-1422 | a date is counted exactly from 1970 on |
| `DatesForms.DaysOn` | porcelain/src/corpus.rs:1413-1422 | within a month each day is one more, even past its end |
| `DatesForms.StampIs` | porcelain/src/corpus.rs:1446-1451 | an instant is written digit by digit, with what stands between |
| `DatesForms.PrintIs` | porcelain/src/corpus.rs:1426-1451 | a count of seconds is written as its day and the clock of that day |
| `DatesForms.ReadIs` | porcelain/src/corpus.rs:1401-1423 | all that a text must be to be read, and what it is read as |
| `DatesForms.FieldIs` | porcelain/src/corpus.rs:1407-1409 | what a field of a text stands for |
| `DatesForms.NotRead` | porcelain/src/corpus.rs:1401-1409 | a text of another length, or with a field that is no number, is not read |
| `Dates.PrintedReads` | porcelain/src/corpus.rs:1401-1451 | every second up to the end of 9999 reads back from how it prints |
| `Dates.ReadPrints` | porcelain/src/corpus.rs:1401-1451 | every instant of a real day from 1970 on prints back as it was |
| `Dates.PrintsBackExactly` | porcelain/src/corpus.rs:1401-1451 | of the texts that read as an instant exactly those print back that have digits in every field, a colon at 13 and 16, and a real day from 1970 with a second below 60 |
| `Dates.SeparatorsIgnored` | porcelain/src/corpus.rs:1401-1412 | what stands where the colons do makes no difference |
| `Dates.LooseForms` | porcelain/src/corpus.rs:1401-1412 | instants with a plus sign for a zero and other characters for their colons are read alike, and do not print back |
| `Dates.LeapSecond` | porcelain/src/corpus.rs:1401-1412 | a sixtieth second is read as the first of the next minute |
| `Dates.NotEveryDayIsReal` | porcelain/src/corpus.rs:1409-1412 | a concrete date the calendar lacks that reads as another |
| `H3.ReadDigit` | crates/publet-algorithms/src/h3.rs:257-259 | the shift and mask read the digit of that place |
| `H3.FromBits` | crates/publet-algorithms/src/h3.rs:100-126 | accepted exactly when mode, base cell, used and unused digits and a pentagon's first turn are right |
| `H3Bits.CellExactly` | crates/publet-algorithms/src/h3.rs:100-126 | which words are cells, bit by bit |
| `H3Bits.ParentIs` | crates/publet-algorithms/src/h3.rs:178-188 | an ancestor bit by bit: the same turns down to its resolution and none beyond |
| `H3Bits.ContainsExactly` | crates/publet-algorithms/src/h3.rs:207-209 | a cell contains another exactly when it is no finer, in the same base cell, and the other begins with its turns |
| `H3.Parent` | crates/publet-algorithms/src/h3.rs:178-188 | the loop makes the identifier with the coarser resolution and every digit beyond it unused |
| `H3.ParentIsCell` | crates/publet-algorithms/src/h3.rs:178-188 | an ancestor is an identifier that would be accepted |
| `H3.ParentOfParent` | crates/publet-algorithms/src/h3.rs:178-188 | an ancestor of an ancestor is the ancestor |
| `H3.ContainsReflexive` | crates/publet-algorithms/src/h3.rs:207-209 | a cell contains itself |
| `H3.ContainsAntisymmetric` | crates/publet-algorithms/src/h3.rs:207-209 | cells that contain each other are one |
| `H3.ContainsTransitive` | crates/publet-algorithms/src/h3.rs:207-209 | containment is transitive |
| `H3.AncestorsComparable` | crates/publet-algorithms/src/h3.rs:207-209 | two cells that contain a third contain one another |
| `H3.ShowParse` | crates/publet-algorithms/src/h3.rs:234-250 | what parses prints back as it was |
| `H3.ParseShow` | crates/publet-algorithms/src/h3.rs:234-250 | every cell parses from how it prints |
| `H3Bits.HexIs` | crates/publet-algorithms/src/h3.rs:234-250 | digits to nine, then letters from a |
| `H3Bits.ParseIs` | crates/publet-algorithms/src/h3.rs:234-244 | text is refused exactly when empty, too long, begun with a nought or of other characters |
| `H3Count.CellCount` | crates/publet-algorithms/src/h3.rs:100-126 | exactly 2 + 120 * 7^r identifiers are accepted at resolution r |

## Left out

- SHA-256 and Ed25519 themselves; signatures, tags and pinned renderings, which a
  build and a publication only append.
- The CBOR codec, the object graph and the store: only what the code asks of them
  is modelled, as parameters that encode, name, admit and hold objects.
- Files, network, clocks, arguments and printing.
- Delta.Apply: an index is a natural number, so a generation index near 2^64,
  where the expected index would overflow, is not modelled.
- Delta.Apply: bounds on removals and the checks of a single record
  (crates/publet-domain/src/generation.rs) are not modelled.
- Corpus.NextRecord: the exported objects are the given members; the scan of the
  directory and the record's date and domain are not modelled.
- Corpus.Corpus.Advance: the size, the bound and whether members are closed under
  what they depend on are given; the domain manifest written beside the first record
  is not modelled.
- Membership.New: sorting and dropping repeats is a function on values; that the
  source does it in place in a local vector is not captured.
- Fixed.ShareRoundsDown: stated for a part and a whole that are not negative.
- PropagateLaws.Conserved: stated for weights that are not negative and whose sum fits
  in a 128-bit word, beyond which totals saturate and shares are of less than the
  whole.  The run itself is modelled for all weights.
- PropagateOrder.OrderIrrelevant: one way only. Weights of both signs whose sizes
  together do not fit a word may or may not add up alike in two orders; which they do
  is not told from the weights.
- PropagateCost.RoundingCost: stated for sums that fit a word when scaled by a
  million, beyond which a share saturates, and for damping from zero to one.
- Propagate.PropagateAll: an overflow, where the source panics, is no result; running
  out of memory, and more rounds than a 32-bit counter counts, are not modelled.
- `reachable_within` in propagate.rs and `root` in graph.rs: plain walks, the second
  of which has the form of `Build.Genesis`.
- Graph.Reachable: this and the other walks are stated for graphs in which finitely many
  nodes are in reach, without which they do not end.
- Build.Substitute: a reference into a parent corpus is the error it is outside one.
- Build.CellOf: the same of a reference into a parent corpus.
- TreeBuild.BuildTree: tags, signatures and imports from a parent corpus are not
  modelled.
- Build.Build.Node: the JSON of a node is its own content and its references in
  order, turned into a body without error; a reference to a parent corpus is the
  error it is outside one; the text of a lock entry is an identifier or not one.
- Build.Build.Node: whether an edge only proposes, and whether the graph admits an
  object or the finished tree, are parameters.
- BuildLaws.GenesisConstant: a name dropped from the sources and declared again
  begins a new lineage (`BuildLaws.NewLineage`), so a run in which it is dropped is
  two runs.
- BuildLaws.UnsteadyBuild: what the graph admits is a parameter, here admitting all.
- TreeBuild.Resolve: shapes of slugs, tags and fragments, and repeated ones.
- Migrate.MigrateAll: decoding is done beforehand, as the source does, and the
  writing back of files after it is not modelled.
- Migrate.SecondRunIdentity: that a second run succeeds is assumed; a text that
  happens to be another object's new identifier would be a new reference.
- Tree.TreeBinding: lengths are below 2^64, as every slice is.
- Dates.PrintedReads: years beyond 9999 print with more digits and do not read.
- `select`, `export` and the other subcommands of a corpus; `checkpoints` and
  `fetches_required`; `is_pentagon`; requirements, manifests, versions and status rules.
