# Ringpop in Dafny

Ringpop keeps a consistent hash ring of servers in step with a SWIM membership
protocol and forwards requests over TChannel. This project models the parts of it
that have to be right for that to work, and proves what they promise. It is written
against `hashring/`, `swim/`, `forward/request_sender.go`, `ringpop.go` and the
vendored TChannel argument fragmentation.

`dafny verify dfyconfig.toml` checks the whole project.

## What is modelled

**The hash ring.** `rbtree.go` inserts and deletes in a single downward pass over heap
nodes without parent pointers, rotating and recolouring before it is known whether the key
exists. `RedBlackPasses` does the same on heap nodes. Every step is tied to a ghost zipper:
the path walked so far (`Path`) and the subtree below it (`Tree`), both holding the nodes
themselves. `RedBlackInsert` and `RedBlackDelete` prove what a step does to shape and order
of the zipper. After a rotation the insert loop carries a grandparent and a great-grandparent
that are out of date for up to two rounds; `Phase` says in which of them the loop is, and the
shape invariant shows that no red violation can arise there. `RedBlackTree` then refines a
finite map, `HashRing` refines a ring value, and `RingGuarantees` proves the laws of consistent
hashing over every history of server changes. The reference definition of a lookup is
`Owners(Clockwise(points, h))`: the distinct owners met walking the points clockwise. `RingDistance`
then does without tree and walk: a lookup of `n` servers finds those to which fewer than `n` others
are closer on the circle of hashes (`LookupIsNearest`).

**SWIM.** `SwimNodes` is one node as a value: member list, pending changes, suspicion timers,
every timer callback ever started, and the two switches. An update and its consequences are
taken as one step, although the source unlocks the member list (`memberlist.go:269`) before it
emits the applied changes (274) and handles them (280). What rests on this is the agreement of the
parts of a node and all that follows from it: `RunCoupled`, `RingFollowsMembers`, the full syncs and
everything in `Routing`. `OutOfOrderIff` says exactly when the parts agree although consequences come in
another order, and `OutOfOrderUncouples` has an order in which they do not. Safety, late timeouts and convergence
do not rest on it: `SwimInterleaved` proves them again for updates split at every lock, with
claims that were read earlier (`MeshSafe`, `LateTimeoutStillHarmless`, `LooseConverges`), and `SwimRefinement` that every
run with atomic updates is one of those runs (`RunIsMoments`, `ClusterIsMesh`). `SwimRuns` has all steps of a node,
`SwimDetection` the way from unreachable over suspect to faulty,
`SwimCluster` any number of nodes and a network that may lose, repeat, reorder and rebatch
changes. The classes in `SwimState` and `SwimNodeObjects` do the work in place, as the source
does, and each method is proved to take that value to its next value. Clock readings and
random numbers are parameters.

**Fragmentation.** A writer splits the arguments of a message over fragments of limited size;
a reader puts them together again. `Denote` says which arguments a series of fragments stands
for, independently of both. The writer keeps that meaning equal to what its caller wrote, the
reader gives it out, and `Transfer` composes the two.

**The whole.** `Routing` puts ring and membership together: over every run of a node its ring
follows its member list, and two nodes that know the same members, none of them suspect, answer
every lookup alike, be it that the same claims reached them, that their checksum texts agree, or that
they exchanged full lists (`SyncedRouteAlike`).

**Around them.** The membership checksum text, the probing iterator, the join back-off and the
retries of request forwarding.

The model follows the code where it does not do what its comments or callers may expect:

- When the reader closes an argument in `fragmenting_reader.go:193-245`, the comment says that
  a fragment fetched there must begin with an empty chunk, which is skipped. The code neither
  checks nor skips it. `CloseAfterExactRead` says what follows for a caller that reads exactly the
  bytes of an argument and closes it: it is right if and only if the last byte is not the last of a
  fragment that is followed by more (`EndsFragment`). `ExactReadLosesArgument` is a run in which
  the second of two arguments is lost.
- A fragment without any chunk makes `fragmenting_reader.go:298` index an empty list. `NoChunksIff`
  says exactly which fragments do, and `EmptyFragmentFails` gives one.
- A first fragment with a type code past the table of checksums makes `checksum.go:85` index out of range,
  and no other does (`UnknownChecksumIff`).
- Farmhash has a type code and four bytes in a fragment, but its entry in the table is the null checksum with
  empty sums (`checksum.go:63-66`). So no message with it is ever accepted, while all other known types are
  (`FarmhashRefused`). `BeginsIff` and `GoesOnIff` have the exact conditions on a table.
- With fragments of three or four bytes a second argument never begins: the writer panics
  (`TinyFragmentsPanic`). From five bytes on it never does.
- The join back-off panics if its initial delay is zero, at delay number 1024, where the power of two
  overflows and zero times infinity is not a number. `BoundsAccepted` has the exact conditions.
- Adding a server whose replica points are taken and removing it again takes away points of
  others. `AddRemoveRestores` says exactly when. It does not take a hash collision:
  `ReplicaNamesCollide` has two servers with a common replica name, and in `VisitTakesPoints` one of
  them loses points to the other.
- A batch of changes that declares an address gone and then alive again leaves it out of the
  ring, because the ring adds before it removes. `FollowsIff` says exactly when.
- The sender of a ping counts the changes it sent when the ping is answered, and by address, so that
  a change recorded in the meantime is counted without having gone out (`LateRecordIsCounted`). The count is
  right if and only if every sending about an address had the change itself (`CountIsRightIff`).
- A suspicion that is news about a member already suspected finds a timer running and is not timed itself
  (`suspicion.go:73-76`). The timer acts on the older incarnation, so the member stays suspect. `NewSuspicionTimesOutIff` says
  exactly when a suspicion can time out, `SuspectedTwiceStays` has a run in which it cannot.
- A refutation goes by the source of the suspicion (`memberlist.go:248-249`), so it is filtered from the answers to the
  node that raised it. `RefutationHeldBackIff` has the exact condition.
- A node that does not know itself yet believes that it is suspect or faulty (`memberlist.go:238-242`), see `NewsOfItself`.
- Rings with different servers have the same checksum text if a name reads like two names joined (`SemicolonMixesUp`).
  For names without a semicolon `TextTellsServers` has the exact condition.
- A refutation at a clock equal to the node's incarnation is ignored by nodes that hold the suspicion at that
  incarnation; `RefutationIsAccepted` has the exact condition.
- `Flush` before the first argument dereferences nil, and otherwise forgets an error that the writer remembers.
- An address that begins with the description of a member and a semicolon can make different
  memberships have the same checksum text. `AloneCollidesIff` says exactly which addresses do so alone.

## Model

| member | source | states |
|---|---|---|
| `RedBlackShape.RotateInOrder` | hashring/rbtree.go:64-74 | a rotation keeps the entries and their order |
| `RedBlackShape.RotateTwiceInOrder` | hashring/rbtree.go:76-79 | so does a double rotation |
| `RedBlackHeap.SingleRotate` | hashring/rbtree.go:64-74 | on heap nodes that store a tree, the rewritten nodes store the rotated tree and its root is returned; only the two rotated nodes change |
| `RedBlackHeap.DoubleRotate` | hashring/rbtree.go:76-79 | the same for two rotations, touching three nodes |
| `RedBlackInsert.FlipSettles` | hashring/rbtree.go:106-110 | flipping two red children keeps black heights, order and surroundings, can only happen while the tracked ancestors are up to date, and leaves children whose own children are black |
| `RedBlackInsert.NoFlipSettles` | hashring/rbtree.go:106-120 | without a flip there is no red violation, also in the rounds in which the tracked ancestors are out of date |
| `RedBlackInsert.LeafSettles` | hashring/rbtree.go:101-105 | a new red leaf fits where the pass ended, and that end is never reached while the tracked ancestors are out of date |
| `RedBlackInsert.RepairedDescends` | hashring/rbtree.go:112-139 | after the repair of a red violation the order of all entries is unchanged, the key is still ahead, and the pass may go on in the next phase with fewer steps left |
| `RedBlackInsert.SettledDescends` | hashring/rbtree.go:122-139 | without a violation the pass goes on, its phase comes closer to normal, and fewer steps are left |
| `RedBlackInsert.InsertedMap` | hashring/rbtree.go:83-153 | entries with one put in between, still sorted, are the old map with that key added |
| `RedBlackPasses.RepairRed` | hashring/rbtree.go:112-120 | on the heap, single or double rotation below the great-grandparent yields the repaired zipper |
| `RedBlackPasses.Visit` | hashring/rbtree.go:100-140 | one round of the insert loop: stored tree, shape invariant, position of the key and the tracked parent, grandparent and great-grandparent are re-established, and the measure decreases |
| `RedBlackPasses.InsertPass` | hashring/rbtree.go:90-140 | the whole downward loop ends in a sorted red-black tree that has the new entry exactly if the key was absent, and otherwise the same entries |
| `RedBlackDelete.PushShape` | hashring/rbtree.go:189-218 | pushing a red node down, in any of its cases, keeps red-black shape and black heights and makes the next node's parent or the node red |
| `RedBlackDelete.BorrowShape` | hashring/rbtree.go:202-215 | borrowing from a sibling with a red child, by one or two rotations, keeps the shape |
| `RedBlackDelete.FlipShape` | hashring/rbtree.go:196-201 | the colour flip with a sibling without red children keeps the shape |
| `RedBlackDelete.PushKeys` | hashring/rbtree.go:172-218 | whatever a round rewrites, the key is still on the way and the found node keeps its place in the order |
| `RedBlackDelete.CutRemoves` | hashring/rbtree.go:221-227 | copying the last node's entry over the found one and unlinking the last node removes exactly the key, although the nodes in between were rearranged |
| `RedBlackDelete.RemovedMap` | hashring/rbtree.go:157-235 | entries without one key are the old map minus that key, sorted, and one shorter |
| `RedBlackPasses.PushDown` | hashring/rbtree.go:189-218 | on the heap, one round of pushing red down yields the pushed zipper and the right parent to go on with |
| `RedBlackPasses.CutOff` | hashring/rbtree.go:221-227 | on the heap, replacing the found entry and unlinking the last node yields the shortened zipper |
| `RedBlackPasses.DeletePass` | hashring/rbtree.go:162-227 | the whole downward loop ends in a red-black tree with the same entries except the key, if it was there |
| `RedBlackTrees.RedBlackTree.Insert` | hashring/rbtree.go:83-153 | any valid red-black tree stays one; the contents gain the key exactly if it was absent, an existing string is never overwritten, result and size agree |
| `RedBlackTrees.RedBlackTree.Delete` | hashring/rbtree.go:157-235 | any valid red-black tree stays one; the contents lose exactly the key, the result tells whether it was there, the size is the node count |
| `RedBlackTrees.RedBlackTree.Search` | hashring/rbtree.go:252-257 | finds the string stored under a key exactly if there is one |
| `RedBlackTrees.SearchFrom` | hashring/rbtree.go:237-248 | recursive search agrees with the map of the entries below a node |
| `RedBlackTrees.FindNUniqueAbove` | hashring/rbtree.go:268-288 | the pruned recursive walk collects what a scan over all entries at or above the value would collect, stopping at `n` strings |
| `RedBlackTrees.RedBlackTree.LookupNUniqueAt` | hashring/rbtree.go:262-264 | the same for the whole tree, on top of what was found before |
| `RingWalk.CollectIsFirst` | hashring/rbtree.go:268-288 | collecting into a set until it has `n` members gives the first `n` distinct owners in order of the walk |
| `RingWalk.TwoPasses` | hashring/hashring.go:266-272 | a search from the hash followed, if need be, by one from zero is a search along the clockwise walk |
| `RingWalk.Disruption` | hashring/hashring.go:250-280 | taking one label's points off the ring keeps all other owners of a lookup, and the whole lookup if that label was not in it |
| `RingPoints.WithReplicasPoints` | hashring/hashring.go:133-139 | adding replicas gives the server all of its points that were free and leaves taken ones alone |
| `RingPoints.WithoutReplicasPoints` | hashring/hashring.go:164-170 | removing replicas takes away all points of the server, whoever owned them |
| `RingPoints.AddedAgrees` | hashring/hashring.go:123-139 | adding a server never leaves a point without a current owner at one of its own points, and keeps points exact if replica points are distinct |
| `RingPoints.RemovedAgrees` | hashring/hashring.go:154-170 | the same for removing a server |
| `RingPoints.ChecksumAnyOrder` | hashring/hashring.go:97-108 | the ring checksum does not depend on the order in which the servers are listed |
| `RingPoints.TextTellsServers` | hashring/hashring.go:97-108 | for names without semicolons the checksum texts of two rings are equal if and only if the servers are, except that no server and the empty name look alike |
| `RingPoints.ChecksumTellsServers` | hashring/hashring.go:97-108 | so for non-empty names, and a fingerprint that keeps the two texts apart, the checksums agree if and only if the servers do |
| `RingPoints.SemicolonMixesUp` | hashring/hashring.go:97-108 | with a semicolon in a name two servers and a single one have the same checksum |
| `Texts.JoinInjective` | hashring/hashring.go:100-100 | joined strings can be read back if none contains the separator |
| `Texts.LeqIff` | hashring/hashring.go:99-99 | sorting is by dictionary order: one string begins the other, or their first difference decides |
| `Texts.DecimalIsNumeral` | hashring/hashring.go:136-136 | the numeral in a replica name stands for its number, without leading zeros |
| `RingGuarantees.BatchAgrees` | hashring/hashring.go:182-202 | a batch ends with the old servers plus the added minus the removed ones, points agree with them, and the checksum is renewed exactly if something changed |
| `RingGuarantees.BatchChangesIff` | hashring/hashring.go:174-202 | a batch reports a change if and only if it adds a server that is not there or removes one that is there by then |
| `RingGuarantees.RunAgrees` | hashring/hashring.go:97-202 | over every history: no stale owner; a checksum of the current servers once anything changed; with distinct replica points exactly the points of the current servers |
| `RingGuarantees.HistoryIndependent` | hashring/hashring.go:97-202 | two histories that end with the same servers end with the same points, and with the same checksum unless nothing ever changed |
| `RingGuarantees.LookupsIndependent` | hashring/hashring.go:250-280 | with distinct replica points every lookup depends on the current servers only, not on the history that led to them |
| `RingGuarantees.ChecksumsTell` | hashring/hashring.go:97-202 | once anything has changed, the checksums after two histories agree if and only if the servers do, under the same conditions |
| `RingGuarantees.AddRemoveRestores` | hashring/hashring.go:123-170 | adding and removing a server restores the points if and only if none of its points was taken |
| `RingGuarantees.ReplicaNamesCollide` | hashring/hashring.go:133-139 | with more than ten replicas two different servers have a replica name, hence a point, in common under every hash function |
| `RingGuarantees.VisitTakesPoints` | hashring/hashring.go:123-170 | so a ring with exactly one server's points loses some of them when another server is added and removed, whatever the hash function |
| `RingGuarantees.LookupIsWalk` | hashring/hashring.go:250-280 | a lookup is the first `n` owners of the clockwise walk if and only if fewer than all servers are asked for or every server has a point |
| `RingGuarantees.LookupOnExactRing` | hashring/hashring.go:250-280 | on a ring with exact points a lookup is that walk, has min(n, servers) members, and grows with `n` |
| `RingGuarantees.OneMoreServer` | hashring/hashring.go:111-139 | the index of a ring with one more server is the old index with that server's points put in |
| `RingGuarantees.LookupMovesLittle` | hashring/hashring.go:239-280 | minimal disruption: with a server more a lookup changes only by letting it in, with a server less only if it was in it |
| `RingDistance.OwnersAreNearest` | hashring/hashring.go:250-280 | a label is among the first `n` owners of the walk if and only if fewer than `n` others have a point nearer to the hash, clockwise, than all of its own |
| `RingDistance.LookupIsNearest` | hashring/hashring.go:250-280 | consistent hashing over every history with distinct replica points: a lookup of `n` servers finds a server if and only if fewer than `n` others have a replica closer to the key than all of its own, for every `n` |
| `HashRings.HashRing.constructor` | hashring/hashring.go:73-84 | a new ring is empty |
| `HashRings.HashRing.AddReplicas` | hashring/hashring.go:133-139 | the tree holds the old points and the server's replicas |
| `HashRings.HashRing.RemoveReplicas` | hashring/hashring.go:164-170 | the tree holds the old points without the server's replicas |
| `HashRings.HashRing.AddServerNoLock` | hashring/hashring.go:123-130 | adds a server that is not there, and says so |
| `HashRings.HashRing.RemoveServerNoLock` | hashring/hashring.go:154-161 | removes a server that is there, and says so |
| `HashRings.HashRing.CopyServers` | hashring/hashring.go:221-227 | lists every server once |
| `HashRings.HashRing.ComputeChecksum` | hashring/hashring.go:97-108 | sets the checksum of the current servers, sorted and joined, and changes nothing else |
| `HashRings.HashRing.AddServer` | hashring/hashring.go:111-120 | the object follows the add operation of the ring value |
| `HashRings.HashRing.RemoveServer` | hashring/hashring.go:142-151 | the object follows the remove operation of the ring value |
| `HashRings.HashRing.AddRemoveServers` | hashring/hashring.go:174-202 | the object follows the batch operation of the ring value, and tells whether anything changed |
| `HashRings.HashRing.LookupN` | hashring/hashring.go:250-280 | lists each owner of a key once: all servers if that many are asked for, otherwise the first `n` met clockwise from its hash |
| `HashRings.HashRing.Lookup` | hashring/hashring.go:239-245 | the one owner of a key, if there is one |
| `SwimMembers.OverrideIsAbove` | swim/member.go:76-113 | the numeric precedence agrees with the order in which states give way (alive to suspect, both to faulty, all to leave, and any to a newer incarnation): a change overrides exactly when it is strictly above, so taking it is a join |
| `SwimMembers.AtMostIsTotalOrder` | swim/member.go:76-113 | that order is total, so the greatest claim is unique |
| `SwimNodes.MergedIsGreatest` | swim/memberlist.go:226-285 | for every address but its own, an update leaves the greatest of what was known and what was claimed |
| `SwimCoupling.MergedIsLast` | swim/memberlist.go:226-336 | the list holds the last applied claim about every address, and the old entry where none was applied |
| `SwimCoupling.AppliedBelow` | swim/memberlist.go:226-285 | an applied claim about another node is never above what the list holds afterwards |
| `SwimCoupling.HandledIsLast` | swim/node.go:393-414 | after handling applied changes, the last one about an address decides its pending change and its timer; other addresses are untouched |
| `SwimCoupling.HandledCallbacks` | swim/suspicion.go:61-97 | every new timer or callback belongs to a suspicion just handled, never to the node itself |
| `SwimCoupling.TimerKept` | swim/suspicion.go:73-76 | a running timer keeps its incarnation while its member is only suspected again |
| `SwimCoupling.TimerIsFirst` | swim/suspicion.go:61-85 | a timer runs at the first suspicion since something else was handled about its member, or since none was running |
| `SwimCoupling.UpdateKeepsCoupled` | swim/memberlist.go:226-285 | an update keeps pending changes, timers and callbacks in agreement with the list |
| `SwimCoupling.OutOfOrderIff` | swim/memberlist.go:269-280 | when what was applied is handled in any order, the parts of the node agree in the end if and only if, for every address, the change handled last makes the claim applied last |
| `SwimRuns.StepCoupled` | swim/node.go:393-414 | so does every other step of a node |
| `SwimRuns.RunCoupled` | swim/suspicion.go:61-134 | over every run: pending changes repeat the member list, timers run only for suspects other than the node, and for all of them as long as suspicion was never disabled |
| `SwimRuns.OutOfOrderUncouples` | swim/memberlist.go:269-280 | two updates merged in one order whose consequences come in the other leave a pending change that the list has overridden, and a timer for an alive member |
| `SwimRuns.JoinNotSpread` | swim/memberlist.go:287-301 | what a join list changed about others is not pending afterwards, everything else is pending as before, and news of the node itself as after any update |
| `SwimRuns.LateTimeoutHarmless` | swim/suspicion.go:78-97 | a callback started at incarnation `i`, run after any further steps, makes its member Faulty at `i`, pending and no longer timed, if and only if the node runs and holds it Suspect at `i`; otherwise it changes nothing |
| `SwimDetection.UnreachableSuspected` | swim/node.go:473-475 | an alive member that cannot be reached becomes suspect at its incarnation, pending and timed; for any other member nothing changes |
| `SwimDetection.SilentMemberFails` | swim/suspicion.go:61-97 | over every run: a member that was alive and could not be reached is made faulty by its timeout, whatever happens in between, if and only if the node runs and still suspects it at that incarnation |
| `SwimDetection.TimesOutIff` | swim/suspicion.go:61-85 | some timeout still to come makes a suspect faulty if and only if a timer was started at the incarnation at which it is suspected |
| `SwimDetection.NewSuspicionTimesOutIff` | swim/suspicion.go:73-81 | over every run that never disabled suspicion: a suspicion that is news can time out if and only if its member was not suspected before |
| `SwimDetection.SuspectedTwiceStays` | swim/suspicion.go:73-81 | a member suspected at two incarnations in a row, which no timeout makes faulty |
| `SwimDetection.StoppedIsDeaf` | swim/memberlist.go:227-229 | until it is started again a stopped node keeps its members and starts no timers, whatever steps come |
| `SwimDetection.StopAndStart` | swim/node.go:240-257 | a node stopped and started again knows what it knew, takes news, and times none of its old suspects |
| `SwimDetection.DisabledTimesNothing` | swim/suspicion.go:100-134 | until suspicion is enabled again no timer runs and no callback is started, whatever steps come |
| `SwimDetection.ReenabledTimesNews` | swim/suspicion.go:61-112 | enabled again, suspicions that are news are timed, old ones are not |
| `SwimRuns.LeaveTakesEffect` | swim/handlers.go:128-131 | a node that leaves holds itself as having left, at its incarnation or its clock if it does not know itself, does not refute that, and spreads it |
| `SwimRuns.ReincarnateIffLater` | swim/memberlist.go:181-188 | reincarnating makes a node alive, pending, if and only if its clock has passed its incarnation or it does not know itself, and otherwise changes nothing |
| `SwimRuns.PassedOnTimes` | swim/disseminator.go:131-145 | a recorded change is counted once for every sending that mentions its address, and dropped by the first that brings the count to the limit of its time, whatever else is sent and however the limit changes |
| `SwimRuns.OutlivesFixedLimit` | swim/disseminator.go:131-145 | while the limit stays, that is the sending whose number is the limit |
| `SwimRuns.CountIsRightIff` | swim/disseminator.go:124-145 | a change went out at most as often as it was counted, and as often if and only if every sending about its address had it |
| `SwimRuns.LateRecordIsCounted` | swim/disseminator.go:124-145 | a change recorded between sending and counting is counted once although it never went out |
| `SwimConvergence.RunIsGreatest` | swim/memberlist.go:226-336 | after any run a node holds, for every other address, the greatest claim that reached it; entries only move up |
| `SwimConvergence.Converges` | swim/member.go:76-113 | two nodes that the same claims reached, in any order, batching and repetition, hold the same entries for all addresses other than their own |
| `SwimConvergence.FullSyncDominates` | swim/disseminator.go:103-119 | applying a full list takes the later entry everywhere but at home |
| `SwimConvergence.FullSyncSettles` | swim/disseminator.go:103-177 | after a full sync both ways two nodes agree on all third parties, and repeating it changes nothing there |
| `SwimCluster.OwnMerged` | swim/memberlist.go:235-267 | a node's own entry never becomes Suspect or Faulty, and its incarnation never goes back |
| `SwimCluster.NextKeepsInvariant` | swim/memberlist.go:226-285 | every event of a cluster, including restarts and stray messages, keeps the safety invariant |
| `SwimCluster.ClusterSafe` | swim/memberlist.go:226-285 | over every run of a bootstrapped cluster: no entry, pending change, timer, callback or message about an address is ahead of that address itself, and no node holds itself Suspect or Faulty |
| `SwimCluster.RefutationIsAccepted` | swim/memberlist.go:245-262 | in every reachable state a node that hears it is suspect or faulty issues a refutation at its clock; another running node ends with it if and only if it held the member at a smaller incarnation, not at all, or just so; with a clock past the incarnation every node does |
| `SwimCluster.AliveAcceptedIff` | swim/member.go:76-90 | an alive claim about another member is accepted if and only if it is newer than the entry or already there |
| `SwimCluster.NewsOfItself` | swim/memberlist.go:235-267 | news of the node itself is believed before it knows itself; later it refutes that it is suspect or faulty, and otherwise keeps the later of both |
| `SwimCluster.GossipDelivers` | swim/disseminator.go:124-129 | in every reachable state: once the pending changes of a node went out and another received them, the other is at least as far about everyone they are about, itself excepted |
| `SwimCluster.SyncDelivers` | swim/disseminator.go:103-119 | the same for a full list, about everyone |
| `SwimCluster.RestartIsHeard` | swim/node.go:340-356 | in every reachable state: a node that restarts with a later clock knows itself alone, and whoever hears of it holds it alive, whatever was said of it before |
| `SwimSync.OwnAfterList` | swim/memberlist.go:245-265 | what a node makes of itself when it gets another's full list: wrong news is refuted, other news is joined |
| `SwimSync.MutualSync` | swim/disseminator.go:103-177 | after full lists from y to x, x to y and y to x again, two nodes with clocks past their incarnations have exactly the same members, themselves included |
| `SwimSync.ClusterSync` | swim/disseminator.go:103-177 | so any two running nodes in every reachable state of a cluster do |
| `SwimInterleaved.MicrosAreHandled` | swim/node.go:393-414 | the separately locked parts of handling changes, undisturbed, add up to the consequences of an update |
| `SwimInterleaved.LateTimeoutStillHarmless` | swim/suspicion.go:78-97 | the same if and only if when updates are interleaved at every lock |
| `SwimInterleaved.LooseConverges` | swim/memberlist.go:233-269 | convergence also holds then |
| `SwimInterleaved.MeshSafe` | swim/memberlist.go:226-285 | and so does the safety of clusters: no entry, pending change, timer, callback, message or unfinished work is ahead of the address it is about, and no node holds itself Suspect or Faulty |
| `SwimInterleaved.AppliedFrom` | swim/memberlist.go:235-267 | an applied change was offered, or refutes an offered one about the node, alive at the clock reading and under the source of what it refutes |
| `SwimRefinement.StepIsMoments` | swim/memberlist.go:226-301 | every step of a node with atomic updates is a sequence of separately locked moments |
| `SwimRefinement.RunIsMoments` | swim/memberlist.go:226-301 | so every run of a node is also a run without atomic updates |
| `SwimRefinement.ClusterIsMesh` | swim/memberlist.go:226-301 | and every run of a cluster, with the same messages and nodes |
| `SwimState.Memberlist.Apply` | swim/memberlist.go:304-336 | records the claim; a new member is put into the list once, at the place drawn |
| `SwimState.InsertedMember` | swim/memberlist.go:303-327 | a new member takes the place drawn, the others keep their order, and the last one stays last |
| `SwimState.Memberlist.Shuffle` | swim/memberlist.go:339-343 | members and their states stay, each listed once and at the place drawn for it, and the checksum stays right |
| `SwimState.Shuffled` | swim/member.go:62-71 | every member moves to the place drawn for it and none is lost |
| `SwimState.Memberlist.GenChecksumString` | swim/memberlist.go:83-100 | builds the checksum text of the members |
| `SwimState.Memberlist.ComputeChecksum` | swim/memberlist.go:69-80 | the checksum is the fingerprint of that text, and nothing else changes |
| `SwimState.Memberlist.Merge` | swim/memberlist.go:233-269 | the list becomes the merged list, and what was applied is returned; if nothing was, nothing changed |
| `SwimState.Memberlist.NumPingableMembers` | swim/memberlist.go:135-145 | counts the members that can be pinged: others that are alive or suspect |
| `SwimState.Disseminator.RecordChange` | swim/disseminator.go:219-223 | the change replaces whatever was pending for its address, not yet passed on |
| `SwimState.Disseminator.ClearChange` | swim/disseminator.go:225-229 | nothing is pending for the address |
| `SwimState.Disseminator.AdjustMaxPropagations` | swim/disseminator.go:71-93 | the limit is that of the number of pingable members |
| `SwimState.Disseminator.IssueChanges` | swim/disseminator.go:197-211 | lists every pending change once, at most one for an address |
| `SwimState.Disseminator.BumpPiggybackCounters` | swim/disseminator.go:131-145 | counts one more transmission of each listed change and drops those passed on often enough |
| `SwimState.FilterChangesFromSender` | swim/disseminator.go:181-195 | in place: a permutation with exactly the changes that did not come from the sender in front |
| `SwimState.Suspicion.Start` | swim/suspicion.go:61-85 | starts a timer unless suspicion is disabled, the node itself is suspected or a timer is running, whose incarnation is then kept |
| `SwimState.Suspicion.Stop` | swim/suspicion.go:87-97 | removes the timer of an address; its callback may still run |
| `SwimState.Suspicion.Reenable` | swim/suspicion.go:100-112 | enables suspicion without starting timers |
| `SwimState.Suspicion.Disable` | swim/suspicion.go:115-134 | disables suspicion and removes all timers |
| `SwimNodeObjects.SwimNode.HandleChanges` | swim/node.go:393-414 | the object follows the node value through the consequences of applied changes, and fits its limit to the pingable members exactly if some change is not Faulty |
| `SwimNodeObjects.SwimNode.Update` | swim/memberlist.go:226-285 | the object follows the node value through an update, returns what was applied, with refutations in place of what they refute, and keeps the checksum that of the members |
| `SwimNodeObjects.SwimNode.AddJoinList` | swim/memberlist.go:293-301 | the join step of a node: merges a join response and keeps nothing of it pending, except about the node itself |
| `SwimNodeObjects.SwimNode.MakeChange` | swim/memberlist.go:206-223 | a node's own change is an update with its own source incarnation, or that of a placeholder which is made once, and what was applied is returned |
| `SwimNodeObjects.SwimNode.SuspicionTimeout` | swim/suspicion.go:78-81 | the timeout step of a node, which makes a suspect faulty |
| `SwimNodeObjects.SwimNode.MemberUnreachable` | swim/node.go:473-475 | the suspicion step of a node, which makes an alive member suspect at the incarnation it knows |
| `SwimNodeObjects.SwimNode.LeaveCluster` | swim/handlers.go:128-131 | the leave step of a node, at its own incarnation or its placeholder's; it panics exactly if there is neither |
| `SwimNodeObjects.SwimNode.Reincarnate` | swim/memberlist.go:181-183 | the reincarnation step of a node, at a clock reading |
| `SwimNodeObjects.SwimNode.FullSync` | swim/disseminator.go:103-119 | lists every member once, as the node has it, in list order, with the node itself and its incarnation, or its placeholder's, as source |
| `SwimNodeObjects.SwimNode.IssueAsSender` | swim/disseminator.go:124-129 | all pending changes, one for an address, none of them counted yet |
| `SwimNodeObjects.SwimNode.PingAnswered` | swim/ping_sender.go:119-120 | whatever is pending now for the addresses that went out is counted once more |
| `SwimNodeObjects.SwimNode.IssueAsReceiver` | swim/disseminator.go:152-177 | answers with exactly the pending changes that did not come from the sender, each counted once more, or with a full sync exactly if there are none and the node's checksum differs from the sender's |
| `SwimNodeObjects.OwnChangeHeldBackIff` | swim/disseminator.go:158-195 | a change taken from the node that made it is sent back to that node if and only if its incarnation is another one by then, and to other nodes always |
| `SwimNodeObjects.RefutationHeldBackIff` | swim/disseminator.go:158-195 | a refutation is kept from an asker if and only if the asker raised the suspicion at the incarnation it has |
| `SwimNodeObjects.SwimNode.Stop` | swim/node.go:250-257 | the node ignores updates and runs no timers |
| `SwimNodeObjects.SwimNode.Start` | swim/node.go:240-247 | the node takes updates again |
| `RingMembership.HandleChanges` | ringpop.go:525-538 | the ring goes through one batch that adds those declared alive and removes those declared faulty or gone |
| `RingMembership.RingOpFollows` | ringpop.go:525-538 | that batch ends with the old servers, plus those declared alive, minus those declared faulty or gone |
| `RingMembership.FollowsIff` | ringpop.go:525-538 | the ring still follows the member list after a batch if and only if no address is last declared alive in a batch that also declares it faulty or gone |
| `RingMembership.RingFollowsMembers` | ringpop.go:525-538 | over every run of batches with distinct addresses, alive members are in the ring and every server in the ring is alive or suspect |
| `RingMembership.RepeatedAddressLosesMember` | ringpop.go:525-538 | a batch with a repeated address that takes an alive member out of the ring |
| `Routing.RingFollowsRun` | ringpop.go:525-538 | over every run of a node, with received lists that have distinct addresses, its ring follows its member list |
| `Routing.FollowsDetermines` | ringpop.go:525-538 | without suspects a member list determines the servers of the ring |
| `Routing.SameMembersRouteAlike` | hashring/hashring.go:250-280 | two nodes that know the same members, none suspect, have the same ring and answer every lookup alike, whatever they went through |
| `Routing.InformedRouteAlike` | swim/memberlist.go:226-285 | so do two nodes that the same claims about third parties reached, in any order, and that agree on each other |
| `Routing.SameTextsRouteAlike` | swim/memberlist.go:83-100 | so do two nodes whose checksum texts agree |
| `Routing.StepsOf` | swim/node.go:340-356 | every node of a reachable cluster is the outcome of its own steps since it was booted |
| `Routing.SyncedRouteAlike` | swim/disseminator.go:103-177 | two running nodes of a reachable cluster that exchanged full lists, y to x, x to y and y to x, and hold nobody suspect, answer every lookup alike |
| `MembershipChecksum.DescribeInjective` | swim/memberlist.go:86-89 | different members, or one in different states, never give the same entry, whatever the address |
| `MembershipChecksum.Samples` | swim/memberlist.go:86-89 | how a member in each state looks in the text, after any address |
| `Texts.FormatIntIsNumeral` | swim/memberlist.go:87-87 | the numeral in an entry stands for the incarnation |
| `MembershipChecksum.ChecksumAnyOrder` | swim/memberlist.go:83-100 | the text does not depend on the order of the list |
| `MembershipChecksum.ChecksumIdentifies` | swim/memberlist.go:83-100 | for addresses that do not begin with a description and a semicolon, two texts are equal if and only if the same members are known in the same states |
| `MembershipChecksum.PlainIsClear` | swim/memberlist.go:83-100 | addresses without a semicolon are such addresses |
| `MembershipChecksum.AloneCollidesIff` | swim/memberlist.go:83-100 | the text of a single member is also that of another membership if and only if its address reads like a description, a semicolon and a different address, in the order of the text |
| `MembershipChecksum.SemicolonsCollide` | swim/memberlist.go:83-100 | with semicolons the text of two or more members is always also the text of a single one |
| `ProbeIterators.MemberlistIter.Next` | swim/memberlist_iter.go:50-72 | finds another member that is alive or suspect exactly if there is one, in fewer than 2N visits, and brings every other pingable member closer to its turn |
| `ProbeIterators.Probe` | swim/memberlist_iter.go:50-72 | a member that stays pingable is pinged within 2N - 1 calls, whatever the shuffles and whatever becomes of the others in between, and the node itself never |
| `JoinDelayers.ExponentialDelayer.Delay` | swim/join_delayer.go:143-190 | the delay is the one drawn from its window, below its cap unless the window is empty; it panics exactly if a setting is negative, or the initial delay is zero and the power of two has overflowed |
| `JoinDelayers.BoundsAccepted` | swim/join_delayer.go:143-166 | every delay can be drawn if and only if the initial delay is positive and the maximum not negative; the first 1024 can if and only if neither is negative |
| `JoinDelayers.ZeroOverflows` | swim/join_delayer.go:149-166 | with an initial delay of zero, delay number 1024 and all after it have no window |
| `JoinDelayers.CapsDouble` | swim/join_delayer.go:149-150 | the first cap is the initial delay and every further one twice the cap before, both up to the maximum, also past the overflow |
| `JoinDelayers.Backoff` | swim/join_delayer.go:143-190 | over a whole run, with any settings: where it panics; and up to there delays are drawn from windows whose caps begin with the initial delay and double up to the maximum, never decrease, never exceed the maximum, and equal it once the cap was reached |
| `RequestSenders.OwnersAre` | forward/request_sender.go:252-271 | the destinations of the keys are those of the keys that are found |
| `RequestSenders.RequestSender.LookupKeys` | forward/request_sender.go:252-271 | lists each destination of the keys once |
| `RequestSenders.RequestSender.Send` | forward/request_sender.go:93-142 | the recursion ends; every repeated call is justified and the result tells how the last one ended or why it was not repeated |
| `RequestSenders.RequestSender.ScheduleRetry` | forward/request_sender.go:199-207 | waits for the time that the schedule gives for this retry, or finds the schedule too short |
| `RequestSenders.RequestSender.AttemptRetry` | forward/request_sender.go:215-236 | sends again exactly if the keys have a single destination now |
| `RequestSenders.RequestSender.RerouteRetry` | forward/request_sender.go:238-247 | goes on with the new destination |
| `RequestSenders.Forward` | forward/request_sender.go:93-271 | a whole run makes at most maxRetries + 1 calls, repeats only after a failure to forward and with a single destination of the keys, changes destination only if rerouting is on and then to that one, makes all retries if no call gets through and the keys keep to one destination, waits as the schedule says, and never overruns one that covers the retries |
| `Fragments.ParseEncode` | Godeps/_workspace/src/github.com/uber/tchannel-go/fragmenting_reader.go:273-285 | parsing recovers the chunks of every fragment of at most 65535 bytes |
| `Fragments.EncodeParse` | Godeps/_workspace/src/github.com/uber/tchannel-go/fragmenting_reader.go:273-285 | what is parsed is the encoding of the chunks found, for contents of any size |
| `Fragments.ParseFailsIff` | Godeps/_workspace/src/github.com/uber/tchannel-go/fragmenting_reader.go:273-289 | up to 65535 bytes: parsing succeeds if and only if the contents are the encoding of chunks, and fails if and only if after some chunks a single byte is left, or a chunk that claims more bytes than there are |
| `Fragments.TruncationRefuses` | Godeps/_workspace/src/github.com/uber/tchannel-go/fragmenting_reader.go:277-280 | contents larger than any frame are refused although their chunk is complete, because the remaining size is truncated to 16 bits |
| `Fragments.DenoteFront` | Godeps/_workspace/src/github.com/uber/tchannel-go/fragmenting_reader.go:133-176 | the meaning of a series of fragments can be read off from the front as well as built up from the back |
| `Fragments.DataIsArguments` | Godeps/_workspace/src/github.com/uber/tchannel-go/fragmenting_writer.go:82-93 | the data that the checksum is taken of are the arguments one after the other, however they were cut into fragments |
| `FragmentingWriters.FragmentingWriter.constructor` | Godeps/_workspace/src/github.com/uber/tchannel-go/fragmenting_writer.go:140-148 | a new writer has written nothing |
| `FragmentingWriters.FragmentingWriter.WriteAsFits` | Godeps/_workspace/src/github.com/uber/tchannel-go/fragmenting_writer.go:82-93 | as many bytes as there is room for extend the current chunk; its 16-bit size does not wrap |
| `FragmentingWriters.FragmentingWriter.FinishChunk` | Godeps/_workspace/src/github.com/uber/tchannel-go/fragmenting_writer.go:96-98 | filling in the deferred size makes the contents the encoding of the chunks |
| `FragmentingWriters.FragmentingWriter.BeginArgument` | Godeps/_workspace/src/github.com/uber/tchannel-go/fragmenting_writer.go:161-197 | the arguments gain an empty one, or the error that applies is kept; it panics exactly if the current fragment has no more than a chunk header's room, and never with fragments of at least five bytes |
| `FragmentingWriters.FragmentingWriter.Write` | Godeps/_workspace/src/github.com/uber/tchannel-go/fragmenting_writer.go:200-227 | the last argument is extended by all bytes given, over as many fragments as it takes, each of them full; none is sent if the bytes fit |
| `FragmentingWriters.FragmentingWriter.Flush` | Godeps/_workspace/src/github.com/uber/tchannel-go/fragmenting_writer.go:230-243 | ending a fragment early, within an argument or between two, sends just that one, does not change the arguments, makes room, and forgets a remembered misuse; it panics exactly before the first argument |
| `FragmentingWriters.FragmentingWriter.Close` | Godeps/_workspace/src/github.com/uber/tchannel-go/fragmenting_writer.go:246-296 | closing an argument does not change the arguments, and sends a fragment exactly if it is the last or has no room for another argument; after the last one the fragments sent carry exactly the arguments |
| `FragmentingReaders.ParseChunks` | Godeps/_workspace/src/github.com/uber/tchannel-go/fragmenting_reader.go:273-289 | the parsing loop agrees with the recursive parser, errors included |
| `FragmentingReaders.FragmentingReader.ReceiveFragment` | Godeps/_workspace/src/github.com/uber/tchannel-go/fragmenting_reader.go:247-300 | accepts a fragment exactly if its checksum type is known and that of the first, it parses, its running checksum agrees and it has a chunk, and otherwise tells which of these failed, or why none came |
| `FragmentingReaders.NoChunksIff` | Godeps/_workspace/src/github.com/uber/tchannel-go/fragmenting_reader.go:290-298 | the list of chunks is indexed out of range if and only if the contents are empty and the checksum is that of the data before |
| `FragmentingReaders.EmptyFragmentFails` | Godeps/_workspace/src/github.com/uber/tchannel-go/fragmenting_reader.go:290-298 | such a fragment, for the table of the source |
| `FragmentingReaders.UnknownChecksumIff` | Godeps/_workspace/src/github.com/uber/tchannel-go/checksum.go:83-92 | the table of checksums is indexed out of range if and only if the type code of a first fragment is past it |
| `FragmentingReaders.RefusedIff` | Godeps/_workspace/src/github.com/uber/tchannel-go/fragmenting_reader.go:247-295 | a fragment is accepted if and only if its type fits and it consists of chunks whose data have its checksum; and for which reason it is refused otherwise |
| `FragmentingReaders.BeginsIff` | Godeps/_workspace/src/github.com/uber/tchannel-go/fragmenting_reader.go:266-295 | a message with a checksum type can begin if and only if the sums of the entry found have the size that fragments of the type provide |
| `FragmentingReaders.GoesOnIff` | Godeps/_workspace/src/github.com/uber/tchannel-go/fragmenting_reader.go:266-295 | it can go on if and only if the entry also goes by that type |
| `FragmentingReaders.FarmhashRefused` | Godeps/_workspace/src/github.com/uber/tchannel-go/checksum.go:47-80 | of the types that the source knows, farmhash alone can begin no message, and the others go by their codes |
| `FragmentingReaders.FragmentingReader.BeginArgument` | Godeps/_workspace/src/github.com/uber/tchannel-go/fragmenting_reader.go:103-131 | at the start of a proper series all of its arguments are ahead, later those that were before; out of turn it fails for good |
| `FragmentingReaders.FragmentingReader.Read` | Godeps/_workspace/src/github.com/uber/tchannel-go/fragmenting_reader.go:133-176 | takes the next bytes off the current argument, over as many fragments as it takes, reports end of file exactly if more were asked for than it had, and stops at the first place where it has enough |
| `FragmentingReaders.ExactReadIff` | Godeps/_workspace/src/github.com/uber/tchannel-go/fragmenting_reader.go:133-176 | reading exactly an argument's bytes stops at its end if and only if the last of them is not the last of a fragment that is followed by more |
| `FragmentingReaders.FragmentingReader.Close` | Godeps/_workspace/src/github.com/uber/tchannel-go/fragmenting_reader.go:178-245 | after end of file the next argument is up, or the message is complete if it was the last and said to be; without end of file the same argument stays pending; which error comes otherwise |
| `FragmentTransfer.WriteMessage` | Godeps/_workspace/src/github.com/uber/tchannel-go/fragmenting_writer.go:161-296 | any arguments cut up into any writes and flushes, also between them, are written completely |
| `FragmentTransfer.ReadMessage` | Godeps/_workspace/src/github.com/uber/tchannel-go/fragmenting_reader.go:103-245 | a reader that reads every argument to end of file gets the arguments of a proper series and ends complete; on any other fragments, what it gets without an error is what it has given out |
| `FragmentTransfer.Completed` | Godeps/_workspace/src/github.com/uber/tchannel-go/fragmenting_reader.go:178-300 | a reader that came to the end of a message, whatever came in, accepted a series as a writer sends it, and gave out what it stands for |
| `FragmentTransfer.SendableUnique` | Godeps/_workspace/src/github.com/uber/tchannel-go/fragmenting_reader.go:247-300 | which of the incoming fragments carry a message, and what they carry, is determined |
| `FragmentTransfer.StandardCoherent` | Godeps/_workspace/src/github.com/uber/tchannel-go/checksum.go:47-80 | the table of the source is one for which the next row holds |
| `FragmentTransfer.ReadAny` | Godeps/_workspace/src/github.com/uber/tchannel-go/fragmenting_reader.go:103-300 | sound and complete on any fragments: a reader reads `n` arguments without an error if and only if the fragments begin with a series that carries `n` arguments, and then it reads these |
| `FragmentTransfer.Transfer` | Godeps/_workspace/src/github.com/uber/tchannel-go/fragmenting_reader.go:103-300 | round trip: for any arguments, writes and flushes, fragment sizes from 5 to 65535 bytes and buffer sizes, exactly the arguments written are read, all but the last fragment are marked as followed by more, none exceeds its size, none but the last leaves room for another argument unless the caller flushed, and the last checksum is that of all arguments |
| `FragmentTransfer.TinyFragmentsPanic` | Godeps/_workspace/src/github.com/uber/tchannel-go/fragmenting_writer.go:183-189 | with fragments of three or four bytes, a second argument never begins |
| `FragmentTransfer.CloseAfterExactRead` | Godeps/_workspace/src/github.com/uber/tchannel-go/fragmenting_reader.go:178-245 | closing after reading exactly an argument's bytes brings up the next one, or an empty one in between if and only if the argument ended with a fragment followed by more |
| `FragmentTransfer.ExactReadLosesArgument` | Godeps/_workspace/src/github.com/uber/tchannel-go/fragmenting_reader.go:178-245 | a message of two arguments in fragments of five bytes, whose second one is read as empty and cannot be closed |

## Left out

- Logging, statistics, metrics, events and listeners: they do not feed back into what is modelled.
- Goroutines, locks and contexts: each operation is an atomic step, an update together with its consequences, and the outcome of a remote call is a parameter.
- Farmhash and the TChannel checksums: any function; distinct replica points are a hypothesis where they are needed.
- String order: characters are compared where the source compares the bytes of UTF-8 strings.
- Member and change timestamps, and status strings other than the four: the override functions treat no other status.
- Member pointers in `members.list`: the list holds addresses, and `byAddress` the entries, so updating a member in place is updating the map.
- `swim/join_sender.go`: choosing nodes to join and counting them; every response is one `AddJoinList`, as in the source.
- The formula for `maxP`, with logarithms in floating point: any function of the number of pingable members.
- `SwimState.Memberlist.NumPingableMembers`: the source dereferences nil here for a node without itself or a placeholder; the node's own address is used, which is what the local member has.
- `swim/gossip.go`, `swim/update_rollup.go` and `router/`: timing, buffering and caching.
- `SwimCluster.ClusterSafe`: a node's clock is taken to be never behind an incarnation that the node used before, as `CanHappen` says; the source reads incarnations off the clock and does nothing to keep this up.
- `FragmentingWriters.FragmentingWriter.constructor`: no fragment has more than 65535 bytes, the size of a frame (`frame.go:34`), and only the first may have less than three; a fragment that continues an argument with less leaves `Write` without progress.
- `FragmentingWriters.FragmentingWriter.Flush`: not after the last argument or after a failed send, where the source sends a fragment twice; the second filling-in of a chunk size between arguments is left out, which after a full fragment writes the same size into a frame already handed over.
- TChannel frames, headers, relaying, and everything else vendored under `Godeps`.
