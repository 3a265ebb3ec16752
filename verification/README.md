# A verified model of the authenticated log

This project models the parts of the repository that an auditor has to trust, and proves what each of them
promises. All of it is Dafny; `dafny verify dfyconfig.toml` checks it.

* **Forest.** Segment, Shard, Region and Global Merkle trees (`SegmentTrees`, `ShardTrees`, `FixedTrees`,
  `HierarchicalForest`) against one reference tree built level by level with unpaired nodes promoted (`Merkle`), which
  is also described from above: it splits at the greatest power of two (`MerkleSplits`).
  The append frontier and the path recomputation are proved to compute the reference root, and the nodes they emit
  are proved to be enough for every later proof (`PersistedNodes`, `Persistence`), in the rows and buckets in which
  they are looked for (`NodeRows`, `RowPersistence`).
* **Proofs.** The planner and the verifier (`TreePlanning`, `Planner`, `Requests`, `ProofBuilding`, `TreeFold`,
  `Verifier`), with soundness against any forest (`ProofSoundness`), completeness over every run
  (`ServedProofs`, `StoredForest`, `RequestCounts`, `Persistence`), uniqueness of the accepted proof
  (`CanonicalProofs`), when a list can be planned (`PlanConditions`), the canonical orders (`CanonicalOrders`), and the
  fast reference against the full one (`ReferenceProofs`, `RunProofs`).
* **Tamper localization.** The pruning search, its report and its service (`Localization`, `LocalizationProofs`,
  `LocalizationExact`, `LocalizationRounds`, `LocalizationService`), and what an accepted transcript establishes
  (`LocalizationVerdicts`).
* **Locator.** A Merkle B+ tree with splits, parent links, a leaf chain and hash maintenance (`LocatorTrees`), its
  size and the pages it changes (`LocatorSizes`, `LocatorChanges`), its range queries and range proofs
  (`LocatorProofs`, `LocatorAcceptance`, `LocatorSoundness`, `LocatorResolve`, `LocatorTreeQueries`), the page codec
  (`PageCodec`, `PageStorage`), and the bytes that are stored and hashed (`ByteLayout`).
* **Protocols.** Checkpoint finalization with failing writes (`Checkpoints`, `CheckpointService`) and the segment
  workers (`SegmentWorkers`, `WorkerManager`), and updates that are persisted out of order or not completely
  (`UpdateOrder`, `UpdatePositions`, `PersistenceOrder`, `InterruptedUpdates`).
* **Benchmark layout.** The bijection between dataset ordinals and addresses (`Layout`).

**The hash.** SHA-256 is an uninterpreted function `H` on the data that is hashed. Nothing is assumed of it. A
soundness theorem concludes that a claim holds or that `Collide` holds: something hashed while verifying and
something hashed while building differ and have one digest. `Preimages` proves that different data has different
bytes, so that such a pair is a collision of SHA-256 itself.

**Form.** Classes model the source's objects that change in place (`LocatorTree`, `SegmentTree`, `ShardTree`,
`FixedTree`, `HMF`, `Manager`, `Service`); methods with loops model its loops, each proved against a function or a
predicate about which the theorems are stated. The `ghost` parameters of some methods name any tree, any page or any
chain: what is ensured of them holds for all of them.

## Findings

Three promises the code does not keep, each with its exact condition:

* **Unplanned leaves.** Nothing in the verifier checks that every requested segment is planned.
  `LeafBoundIffPlanned`: a requested leaf is bound to its hash exactly if its segment is planned (or the hash
  collides). `UnplannedLeafIsAccepted` adds a leaf of an unplanned segment, with any hash, to any accepted proof.
  The planner plans every segment (`EndToEnd`), so proofs that the service builds itself are not affected.
* **Order of updates.** A segment is appended under a mutex, but its update is sent after the mutex is released
  (internal/hm/segment_worker.go:55-60), while the writer's documentation relies on ordered updates
  (internal/storage/cassandra/hmf_update_writer.go:81-82). `HoldsIffCurrent`: however the shards' updates interleave
  when they are persisted, the storage holds the last forest exactly if no position of a Region tree or the Global tree
  was written last by an update made before one that changes it (or the hash collides). For the stored Global root alone
  it is enough that the update of the last append is persisted last (`RootIsCurrentIffLast`); `LastIsNotEnough` is an
  order that meets this and leaves a stale Region tree. Persisting in the order of the appends meets the condition
  (`AsMadeIsCurrent`), and `RunsHold` is about that order.
* **Addresses of the benchmark layout.** `ordinal` reads a region's number with an optional sign and leading zeros, and
  multiplies the segment's number without checking that the int64 product fits. `OrdinalInverts`: an accepted address
  has an ordinal of the layout and is that ordinal's address exactly if its region name is canonical and its segment's
  number is at most (2^63 - 1 - leaf) / leaves of a segment. `SignedRegion` gives every record's address a second form
  that is accepted too, in every layout (`FirstRecord`). With the segments of 2^15 leaves that the benchmark uses, the
  segment 2^49 further on is accepted in place of each record's (`WrappedSegment`), and segment 2^48 of the first shard
  is accepted with the ordinal -2^63 (`NegativeOrdinal`).

Where the code and its documentation differ otherwise the model follows the code: `insert` accepts a key twice and puts
the copies next to each other (`OrderKeptIffNew`), while a range proof is refused if a leaf holds a key twice
(`RepeatedKeyRefused`), so the locator theorems are about distinct keys.

## Model

| member | source | states |
|---|---|---|
| `SegmentTrees.SegmentTree.Append` | internal/hmf/segment_tree.go:44-60 | appends the leaf unless the segment is sealed or full, and changes nothing otherwise |
| `SegmentTrees.SegmentTree.BuildInternalNodes` | internal/hmf/segment_tree.go:63-92 | builds every row of the reference tree with unpaired nodes promoted, its root and height, and returns all nodes level by level |
| `SegmentTrees.SegmentTree.Seal` | internal/hmf/segment_tree.go:94-105 | succeeds exactly once and only with leaves; the root is the reference root |
| `SegmentTrees.SealedNodesSuffice` | internal/hmf/segment_tree.go:63-105 | writing the nodes of a sealed segment stores exactly the nodes of its tree |
| `ShardTrees.ShardTree.Append` | internal/hmf/shard_tree.go:111-128 | after any number of appends root, height and frontier are those of the reference tree over all leaves, and the update is the path of the new leaf |
| `ShardTrees.ShardTree.MergeFrontier` | internal/hmf/shard_tree.go:49-76 | carries the new leaf through the frontier: the frontier becomes the perfect-subtree roots of the longer sequence, and the merged nodes are returned |
| `ShardTrees.ShardTree.MaterializeRootPath` | internal/hmf/shard_tree.go:78-109 | folds the frontier, promoting where there is no sibling, into the reference root, and returns the nodes from the last perfect subtree up |
| `ShardTrees.HeightIsLeast` | internal/hmf/shard_tree.go:111-128 | the height is the least h with n <= 2^h |
| `ShardTrees.FrontierIsBits` | internal/hmf/shard_tree.go:49-76 | the frontier has strictly decreasing levels and holds one node for each 1-bit of the leaf count: the last complete node of that level of the reference tree |
| `ShardTrees.AppendedNodesSuffice` | internal/hmf/shard_tree.go:49-128 | overwriting a store of all nodes of the tree with the emitted ones gives all nodes of the longer tree |
| `MerkleSplits.RootSplits` | internal/hmf/segment_tree.go:63-92 | the root over more than 2^l and at most 2^(l + 1) leaves hashes the root over the first 2^l with the root over the others |
| `MerkleSplits.NodeIsRoot` | internal/hmf/segment_tree.go:63-92 | every node of a tree is the root of the tree over the leaves below it |
| `FixedTrees.FixedTree.Build` | internal/hmf/region_tree.go:47-88 | builds the reference tree over exactly as many leaves as the tree has; any other number is refused without a change |
| `FixedTrees.FixedTree.UpdateRoot` | internal/hmf/region_tree.go:90-158 | replacing a leaf and recomputing its path gives the reference tree over the new leaves (likewise internal/hmf/global_tree.go:87-141) |
| `FixedTrees.FixedTree.RecomputePath` | internal/hmf/region_tree.go:90-137 | rewrites the path level by level and emits it with its siblings |
| `PersistedNodes.UpdateKeepsStore` | internal/hmf/region_tree.go:90-158 | over a store that agrees with the old tree wherever it is defined, the emitted nodes give a store that agrees with the new tree, covers the changed leaf and loses nothing |
| `PersistedNodes.CoveredSuffices` | internal/hpp/planner.go:151-199 | a store that covers the target leaves holds every node planTree requires for them, with the tree's value |
| `NodeStore.ReplayNodes` | internal/storage/cassandra/hmf_update_writer.go:64-73 | last write wins: after replaying nodes of a tree each written position has the tree's value and the others are as before |
| `HierarchicalForest.HMF.New` | internal/hmf/hmf.go:62-126 | succeeds exactly for distinct, non-empty region names and positive sizes, and holds a forest of empty shards |
| `HierarchicalForest.HMF.AppendSealedSegment` | internal/hmf/hmf.go:134-195 | appends exactly that segment to its shard and no other, keeps every Region and Global leaf the commitment of the current tree below, and reports the nodes, roots, sizes and indexes of the three trees |
| `HierarchicalForest.ReportedRoots` | internal/hmf/hmf.go:134-195 | the new segment's commitment is the last leaf of its shard, the reported shard root is the leaf reported of its region, the region root the leaf reported of the Global tree, and the Global root the forest's |
| `HierarchicalForest.ReportedHeights` | internal/hmf/hmf.go:134-195 | each reported height is the least at which the reported leaves fit |
| `HierarchicalForest.HMF.Root` | internal/hmf/hmf.go:128-130 | the committed root of the forest of all appended segments |
| `Forests.AppendedChanges` | internal/hmf/hmf.go:134-195 | an append changes one leaf of its shard, one of its region and one of the Global tree, and leaves all other trees as they were |
| `ForestTrees.LeafIsChild` | internal/hmf/commitment.go:10-48 | every leaf of a Shard, Region or Global tree is the commitment of the tree it stands for, with that tree's identity and leaf count |
| `TreePlanning.PlanTree` | internal/hpp/planner.go:151-199 | the canonical plan for the targets: Required are the siblings of the active nodes, level by level, or an error exactly for bad targets |
| `TreeProofs.PlanPartitionsLeaves` | internal/hpp/planner.go:151-199 | every leaf is either a target or below exactly one Required node, and no Required node is above a target |
| `TreeFold.ReconstructTree` | internal/hpp/verifier.go:302-387 | succeeds exactly if the nodes supplied are the ones needed, each used once, and returns the folded root with every node of the trace |
| `TreeProofs.FoldComplete` | internal/hpp/verifier.go:302-387 | folding the true leaves and nodes of a tree returns its root |
| `TreeProofs.PlanThenFold` | internal/hpp/planner.go:151-199 | plan-then-fold round trip: for every leaf count and target set, the true values of the planned nodes fit the fold and give the root; Required lists each of them once, in (level, index) order, and each is taken at exactly one place |
| `TreeProofs.FoldSound` | internal/hpp/verifier.go:302-387 | if the folded root is a tree's root, every leaf and node supplied is that tree's own, or the hash collides |
| `Planner.Plan` | internal/hpp/planner.go:14-149 | plans exactly the segments of the addresses and the trees above them with their targets and parent links, or fails exactly if metadata is missing, a segment is not sealed or out of range, or two children claim one slot |
| `PlanConditions.PlannableIff` | internal/hpp/planner.go:14-149 | a list can be planned exactly if it is not empty, the metadata covers every address, and no two trees above the addresses claim one position |
| `CanonicalOrders.AddressFields` | internal/hpp/grouping.go:31-42 | addresses are ordered by region, shard, segment and leaf |
| `CanonicalOrders.TreeFields` | internal/hpp/grouping.go:60-71 | trees are ordered by layer, region, shard and segment |
| `CanonicalOrders.RequestFields` | internal/hpp/planner.go:239-270 | requests are ordered by tree, bucket and level |
| `ProofInputs.NormalizeAddresses` | internal/hpp/grouping.go:10-29 | returns the distinct addresses in strictly ascending order; an error exactly if one has no region or a negative number |
| `ProofInputs.NormalizeTwice` | internal/hpp/grouping.go:10-29 | normalizing what is normalized changes nothing |
| `Requests.BuildRequests` | internal/hpp/planner.go:201-272 | requests group the segment targets and Required nodes by tree, level and the bucket of the node, in canonical order |
| `NodeRows.BucketHolds` | internal/hpp/grouping.go:73-78 | the bucket of a Shard node is the one of its first leaf: bucket * 2^15 <= index * 2^level < (bucket + 1) * 2^15 |
| `NodeRows.AskedIsWritten` | internal/storage/cassandra/hmf_repo.go:25-37 | the row that a request reads for a node is the one the writer stores it in |
| `NodeRows.WrittenRows` | internal/storage/cassandra/hmf_update_writer.go:64-73 | writing a tree's nodes row by row, by tree, bucket, level and index, keeps the rows those of the stored nodes |
| `Requests.AsksAll` | internal/hpp/planner.go:201-272 | the requests ask for exactly the targets and Required nodes of the plan |
| `Requests.AsksTimes` | internal/hpp/planner.go:201-272 | over all requests, each node is listed as often as it is wanted |
| `RequestCounts.PlansAskOnce` | internal/hpp/planner.go:201-272 | for every plan, the requests list each requested leaf and each Required node once, and nothing else |
| `RequestCounts.StoredRowsServe` | internal/storage/cassandra/hpp_reader.go:190-258 | if every planned node is stored, reading the rows that the plan's requests name answers each of them with the stored value |
| `ProofBuilding.SplitTargetLeaves` | internal/hpp/proof.go:93-122 | splits fetched nodes into the requested leaves and the others, and fails exactly if a target is missing |
| `ProofBuilding.FetchProofNodes` | internal/storage/cassandra/hpp_reader.go:190-258 | reads the rows the requests name, and returns the stored value of each node asked for, or an error exactly if a row is missing |
| `ProofBuilding.BuildProof` | internal/hpp/proof.go:24-49 | plan, fetch from the rows the requests name, and split: the proof carries exactly the stored values of the planned nodes, or an error exactly if the addresses cannot be planned or a node is not stored |
| `ProofBuilding.RequestsCover` | internal/hpp/planner.go:201-272 | everything the requests ask for is needed by the proof, and everything it needs is asked for |
| `ServedProofs.BuiltIsAcceptable` | internal/hpp/proof.go:24-49 | a proof built from any storage has exactly the planned nodes, links and leaves: only the hashes can be wrong |
| `ProofCompleteness.TruthfulRoot` | internal/hpp/verifier.go:26-164 | a proof whose plans, links and hashes are the forest's own evaluates to the forest's root through all four layers |
| `StoredForest.EndToEnd` | internal/hpp/proof.go:124-149 | for every storage that holds a forest and every non-empty list of sealed addresses, planning succeeds, every node is stored, the rows the requests read hold it, and the verified root is the forest's; every requested segment is planned, and each leaf and Required node is requested once |
| `Verifier.EvaluateHMFProof` | internal/hpp/verifier.go:26-164 | accepts exactly the acceptable proofs (nothing twice, canonical plans, exactly the planned nodes, valid links, each tree linked and given exactly its targets) and records every node of the layers |
| `Verifier.VerifyHMFProof` | internal/hpp/verifier.go:12-15 | the Global root an acceptable proof evaluates to |
| `Verifier.VerifyHMFProofAgainstRoot` | internal/hpp/verifier.go:225-240 | accepts exactly the acceptable proofs with the trusted root |
| `Verifier.ValidateTreePlanShape` | internal/hpp/verifier.go:181-207 | accepts a plan exactly if it is the canonical one for its leaf count and targets |
| `Verifier.ValidateProofLeaves` | internal/hpp/verifier.go:242-274 | accepts exactly the leaves of the requested addresses, each once |
| `Verifier.ContainsPosition` | internal/hpp/verifier.go:390-398 | binary search finds a position exactly if it is in the sorted list |
| `ProofSoundness.ProofsAreSound` | internal/hpp/verifier.go:26-164 | if a proof evaluates to a forest's committed root, every planned leaf count, every parent-link index, every authentication node and every covered leaf hash is the forest's own, or the hash collides |
| `ProofSoundness.CoveredLeafIsStored` | internal/hpp/verifier.go:26-164 | a sound proof carries the stored hash of every requested leaf whose segment it plans |
| `ProofSoundness.LeafBoundIffPlanned` | internal/hpp/verifier.go:26-164 | the verifier binds a requested leaf exactly if its segment is planned: another hash is then refused or collides, and is accepted otherwise |
| `CanonicalProofs.AcceptedIsBuilt` | internal/hpp/verifier.go:26-274 | over storage that holds the forest, a proof that plans the segment of every requested leaf and is accepted against the forest's root is the one the service builds, up to the order of its lists, or the hash collides |
| `CanonicalProofs.ReorderedIsAccepted` | internal/hpp/verifier.go:26-274 | every reordering of the lists of a built proof that verifies is accepted with the same root |
| `UnplannedLeaves.UnplannedLeafIsAccepted` | internal/hpp/verifier.go:242-274 | to any accepted proof a leaf of an unplanned segment can be added with any hash, and the root stays the same |
| `Persistence.InitHolds` | internal/hmf/hmf.go:62-126 | an empty storage holds a forest of empty shards |
| `Persistence.StepHolds` | internal/storage/cassandra/hmf_update_writer.go:29-79 | persisting the update of an append keeps the storage holding the forest: it agrees with every tree wherever it is defined and covers every sealed segment's path |
| `Persistence.RunsHold` | internal/storage/cassandra/hmf_update_writer.go:29-97 | along every run of appends the storage holds the forest |
| `Persistence.RunsServe` | internal/hpp/planner.go:14-149 | at any point of any run every non-empty list of sealed addresses gets a proof whose verified root is the forest's, from requests that list each Required node and segment target once and find it in its row |
| `Persistence.SealedForever` | internal/hmf/hmf.go:134-195 | once a segment is sealed, its addresses name the same leaves at every later point |
| `UpdateOrder.PersistedRoot` | internal/storage/cassandra/hmf_update_writer.go:64-78 | the update persisted last decides the stored Global root, whatever was stored before |
| `UpdateOrder.RootIsCurrentIffLast` | internal/hm/segment_worker.go:50-64 | for every order in which the updates of a run are persisted, the stored Global root is the last forest's exactly if the update of the last append is persisted last, or the hash collides |
| `UpdateOrder.OutOfOrderIsStale` | internal/hm/manager.go:144-152 | if the update persisted last is an earlier one, the storage holds the later forest only through a hash collision |
| `UpdatePositions.StoredValue` | internal/storage/cassandra/hmf_update_writer.go:64-78 | whatever the order, a position of a Region tree or the Global tree is stored exactly if a persisted update writes it, with its value right after the append whose update was persisted last among those that write it |
| `UpdatePositions.CurrentIffUnchanged` | internal/hmf/region_tree.go:90-158 | the value that an append wrote at a position of a Region tree or the Global tree is still the current one exactly if no later append changes the position, or the hash collides |
| `PersistenceOrder.HoldsIffCurrent` | internal/hm/segment_worker.go:50-64 | for every interleaving of the shards' updates, the storage holds the last forest, in all trees and all metadata, exactly if no position above the shards was written last by an update made before one that changes it, or the hash collides |
| `PersistenceOrder.CurrentEndsWithLast` | internal/storage/cassandra/hmf_update_writer.go:81-97 | an order that leaves everything current persists last, of each Region tree and the Global tree, the update that was made last |
| `PersistenceOrder.LastIsNotEnough` | internal/hm/manager.go:144-152 | for three appends, two to shards of one region and one to another region, swapping the first two updates stores the last Global root but holds the forest only through a hash collision |
| `PersistenceOrder.AsMadeIsCurrent` | internal/storage/cassandra/hmf_update_writer.go:81-97 | persisting in the order of the appends meets the condition, in every run |
| `RowPersistence.RowsOfRun` | internal/storage/cassandra/hmf_update_writer.go:41-73 | in whatever order the updates of a run are persisted row by row, the rows are those of what is stored |
| `InterruptedUpdates.PartsReach` | internal/storage/cassandra/hmf_update_writer.go:41-79 | after any number of its writes an update has changed only the trees it has reached, and all its writes together are the update |
| `InterruptedUpdates.InterruptedServes` | internal/storage/cassandra/hmf_update_writer.go:27-79 | an update that stops after or in the middle of any write leaves the addresses it has not reached served by the same proofs to the root before: all of them until the Shard tree is written, then other shards', then other regions' |
| `UpdateOrder.LaterRootDiffers` | internal/hmf/hmf.go:134-195 | every append changes the Global root, then and at all later states, or the hash collides |
| `ForestsDiffer.SameRootSameShards` | internal/hmf/commitment.go:10-48 | forests of the same regions and shards with equal roots have the same Shard leaves, or the hash collides |
| `ReferenceProofs.BuildAndVerify` | internal/hpp/proof.go:138-149 | returns the built proof exactly if it verifies against the trusted root |
| `ReferenceProofs.ReferenceFromProof` | internal/hpp/proof.go:58-89 | rebuilds a proof over the plan of another and returns it with its trace exactly if it verifies against the trusted root |
| `ReferenceProofs.SoundDetermines` | internal/hpp/proof.go:58-89 | two sound proofs of the same addresses that plan every segment are the same, node by node |
| `ReferenceProofs.FastRefinesFull` | internal/hpp/proof.go:58-149 | a rebuilt reference accepted against the forest's root supplies the same hash at every planned position as the one built in full, which is accepted too, or the hash collides |
| `RunProofs.RunsDistinct` | internal/hm/manager.go:175-183 | no run gives two segments of a shard one identifier |
| `RunProofs.RunsRefineReferences` | internal/hpp/proof.go:58-149 | so the fast reference refines the full one at any point of any run |
| `Localization.Analyze` | internal/localization/analyze.go:14-103 | the k-level pruning search over the trees of both traces, level by level; it terminates for every k >= 1 and reports what the rows below say of AnalysisOf |
| `Localization.CollectFrontier` | internal/localization/analyze.go:134-150 | the positions at most k levels below a node, down to where the search cannot descend |
| `Localization.TreeHeight` | internal/localization/analyze.go:190-197 | the height of a tree with so many leaves |
| `LocalizationExact.Exact` | internal/localization/analyze.go:14-103 | for two accepted proofs with one plan and any k >= 1 the suspects are exactly the requested leaves and Required nodes whose hashes differ, each once and in order; a changed child root is never reported; or the hash collides |
| `LocalizationProofs.NeverEmpty` | internal/localization/analyze.go:14-103 | for any two accepted proofs with different Global roots, whatever their topologies and without any assumption on the hash, there is a suspect |
| `LocalizationRounds.ComparisonsTrue` | internal/localization/analyze.go:62-90 | every comparison carries the auditor's and the reference's own hash of its node and matches exactly if both traces hold the node with one hash; no node is compared twice |
| `LocalizationRounds.SuspectsCompared` | internal/localization/analyze.go:62-103 | every suspect other than a whole tree was compared exactly once, with the hashes it is reported with, and did not match |
| `LocalizationRounds.RoundsDescend` | internal/localization/analyze.go:43-100 | a tree has rounds exactly if its roots differ although both proofs have it with one leaf count; they start at its root and go down by k levels, each below nodes in which the round before found a difference |
| `LocalizationRounds.RoundsInOrder` | internal/localization/analyze.go:14-46 | the rounds come tree by tree, in the order of the trees |
| `LocalizationRounds.BadShardsAre` | internal/localization/analyze.go:21-31 | the bad shards are exactly the Shard trees of either proof whose committed roots differ, each once and in order |
| `LocalizationRounds.TopologyReported` | internal/localization/analyze.go:43-54 | a whole tree is suspected exactly if its roots differ and the proofs do not agree on its size, at the greater of the two heights and with the committed roots there are |
| `LocalizationRounds.DifferencesExplained` | internal/localization/analyze.go:62-103 | each difference that was compared is a suspect, lies in the tree below, or is searched further |
| `LocalizationService.Localize` | internal/localization/service.go:33-80 | succeeds exactly if the request is in order, the failed proof has the auditor's root, the roots differ and a reference can be authenticated; the result is accepted by VerifyProof and names a suspect |
| `LocalizationService.AuthenticatedReference` | internal/localization/service.go:87-96 | the fast reference if it authenticates, and the full one otherwise |
| `LocalizationService.VerifyProof` | internal/localization/service.go:100-137 | accepts exactly the transcripts: both proofs accepted, the reference with the trusted root, and the analysis that of their traces |
| `LocalizationVerdicts.TranscriptAccuses` | internal/localization/service.go:100-137 | an accepted transcript accuses a leaf only if it was requested and the failed proof carries another hash of it than the forest holds, both of which are in the report, or the hash collides |
| `LocalizationVerdicts.AlwaysAccuses` | internal/localization/service.go:100-137 | an accepted transcript has a suspect, the fixed k, the trusted root, an auditor's root that differs from it, and exactly the expected addresses |
| `LocalizationService.AlwaysLocalizes` | internal/localization/service.go:33-80 | over a storage that holds the forest, every failed proof with a root of its own can be localized |
| `LocalizationService.ChangedLeavesFound` | internal/localization/service.go:33-96 | against the fast reference, the accused leaves are exactly those whose hash differs from the stored one, in order, or the hash collides |
| `LocalizationService.TraceUnique` | internal/hpp/verifier.go:19-21 | a trace is determined by what it traces |
| `LocatorKeys.CompareEqual` | internal/all/locator_key.go:11-48 | keys that compare equal are equal, and the comparison is antisymmetric |
| `LocatorKeys.KeyTransitive` | internal/all/locator_key.go:11-48 | the key order is transitive |
| `LocatorKeys.FieldsDecide` | internal/all/locator_key.go:11-48 | the first field that differs decides: tenant, service, log type, region, time, identifier |
| `ProofTypes.TextLessIs` | internal/all/locator_key.go:11-48 | texts compare by the first byte that differs, and a proper prefix is less |
| `LocatorTrees.FindKeyIdx` | internal/all/locator_page.go:42-52 | the first position whose key is greater |
| `LocatorTrees.LocatorTree.constructor` | internal/all/locator_tree.go:44-61 | an empty root leaf is a valid tree without records |
| `LocatorTrees.LocatorTree.InsertWithUpdate` | internal/all/locator_tree.go:208-220 | keeps the B+ tree valid (uniform depth, every page but the root at least half full and none over Order, key intervals, parent links, leaf chain, every hash that of its page's contents), adds exactly this record, and returns, by identifier, exactly the pages that are new or changed, unless hashes collide; they suffice to bring any store of the old tree up to date |
| `LocatorTrees.LocatorTree.Insert` | internal/all/locator_tree.go:222-238 | descends to the leaf for the key and inserts there |
| `LocatorTrees.LocatorTree.InsertInLeaf` | internal/all/locator_tree.go:222-238 | puts the record into its leaf, which is cut in the middle exactly if it is full then; every other leaf keeps its records and its successor |
| `LocatorSizes.PageSizes` | internal/all/locator_tree.go:117-182 | below the root a leaf has at least Order / 2 keys and an internal page at least (Order - 1) / 2, and none more than Order - 1 |
| `LocatorSizes.RecordsBetween` | internal/all/locator_tree.go:117-182 | with c the least number of children below the root, a tree of height h > 0 has at least 2 * c^(h - 1) * (Order / 2) records, and at most Order^h * (Order - 1) |
| `LocatorTrees.LocatorTree.LeafSplit` | internal/all/locator_tree.go:155-182 | the first Order / 2 records of an overfull leaf stay, a new page on its right takes the others and its successor, and the parent takes the new page; all other pages up to this level stay but for their parents |
| `LocatorTrees.LocatorTree.InternalSplit` | internal/all/locator_tree.go:117-153 | an internal page with too many children keeps the first Order / 2 keys, a new page takes the keys behind the next one, which goes up, and the moved children get the new parent; a page with no more than Order children stays |
| `LocatorTrees.LocatorTree.InsertParent` | internal/all/locator_tree.go:72-115 | gives the parent the separator and the right half, or makes a new root above both halves |
| `LocatorTrees.LocatorTree.UpdatePathHashes` | internal/all/locator_tree.go:184-200 | recomputes the hashes from the leaf to the root; then every page has the hash of its contents |
| `LocatorPages.OnePage` | internal/all/locator_tree.go:222-238 | at each level a key lies in one page only |
| `LocatorSteps.SplitKeepsShape` | internal/all/locator_tree.go:72-153 | splitting a page and pairing the halves below its parent keeps the shape of the tree |
| `LocatorTracking.SplitTracked` | internal/all/locator_tree.go:117-182 | although splits compute hashes that are stale later, off the insertion path every hash stays right and every page not listed as updated stays as it was |
| `LocatorTracking.RehashTracked` | internal/all/locator_tree.go:184-200 | recomputing one page's hash moves the pending path up one level |
| `LocatorTracking.EntryUnique` | internal/all/locator_tree.go:222-238 | a key is stored at one position of one leaf only |
| `LocatorTrees.UpdatesSuffice` | internal/all/locator_tree.go:16-34 | overwriting a store that matched the old tree with the returned pages makes it match the new one in keys, values, children, next, parent and hashes |
| `LocatorChanges.ListedChanged` | internal/all/locator_tree.go:7-34 | every page listed by the cuts and by the climb to the root is new, has another parent, other keys or another hash than before, or hashes collide |
| `LocatorOrder.ChainIsRun` | internal/all/locator_tree.go:155-182 | the leaf chain is the in-order traversal and ends with its last leaf |
| `LocatorOrder.SeparatorIsLeast` | internal/all/locator_tree.go:72-182 | each separator is the least key of the subtree to its right |
| `LocatorOrder.LeafTraversed` | internal/all/locator_tree.go:155-182 | every leaf of the tree is in the traversal |
| `LocatorChains.PathLevels` | internal/all/locator_range.go:181-199 | each step down lowers the level by one, so every leaf is as deep as the height of the tree |
| `LocatorProofs.ReconstructLocatorRoot` | internal/all/locator_range.go:485-517 | the hash climbed from the leaf through every step, or an error exactly if keys and values or a step are inconsistent |
| `LocatorProofs.VerifyLocatorPathProofs` | internal/all/locator_range.go:521-538 | accepts exactly if there are leaves and each reconstructs the trusted root, as the proof says |
| `LocatorProofs.VerifyConsecutiveLeafProofs` | internal/all/locator_range.go:614-651 | accepts exactly distinct leaves of one depth, each leading to the next, with strictly ordered keys |
| `LocatorProofs.VerifyLocatorRangeResult` | internal/all/locator_range.go:554-612 | accepts exactly the results whose leaves reach the root and are consecutive, that answer the range over those leaves, and that reach the tree's edge where a neighbour is missing |
| `LocatorProofs.ScanEntries` | internal/all/locator_range.go:567-583 | splits sorted entries at both bounds and finds the neighbours |
| `LocatorAcceptance.AcceptedLeaves` | internal/all/locator_range.go:521-651 | in an accepted result each leaf reconstructs the trusted root at one depth, and several leaves are not empty, distinct, and each names the next |
| `LocatorAcceptance.AcceptedKeys` | internal/all/locator_range.go:614-651 | the keys of accepted leaves are strictly ordered, within each and from one to the next |
| `LocatorAcceptance.AcceptedEdges` | internal/all/locator_range.go:584-612 | a missing predecessor is shown by a path along the left edge, a missing successor by one along the right edge |
| `LocatorSoundness.LeafShown` | internal/all/locator_range.go:485-538 | a leaf proof that reconstructs the root of a tree copies a leaf of that tree; a leftmost path shows the first leaf; or the hash collides |
| `LocatorSoundness.RangeProofsAreSound` | internal/all/locator_range.go:485-688 | a result accepted against the root of a locator tree holds exactly the tree's entries in the range, in order, and its predecessor and successor are the immediate neighbours or truly absent, or the hash collides |
| `LocatorSoundness.AcceptedIsTheRange` | internal/all/locator_range.go:554-688 | in terms of the inserted records: exactly those with keys in the range, the greatest below it and the least at or above its end |
| `LocatorSoundness.TreeListsContents` | internal/all/locator_tree.go:222-238 | the leaves list exactly the inserted records |
| `LocatorQueries.FindLeaf` | internal/all/locator_range.go:181-199 | whatever the reader, a found leaf is read along a path of matching hashes; from a tree's own pages the leaf responsible for the key is found |
| `LocatorQueries.PredecessorEntry` | internal/all/locator_range.go:211-245 | the entry just before a position of a leaf, across leaves, or none at the left edge |
| `LocatorQueries.SuccessorEntry` | internal/all/locator_range.go:247-281 | the entry at a position of a leaf, across leaves, or none at the right edge |
| `LocatorQueries.LowerBound` | internal/all/locator_range.go:306-310 | binary search for the first key not below the target |
| `LocatorChains.ProofShows` | internal/all/locator_range.go:442-470 | the proof made for a leaf that was found shows that leaf, reaches the root hash and runs along the edge for the first and last leaf |
| `LocatorChains.OrderLeafProofs` | internal/all/locator_range.go:386-440 | arranges leaf proofs in chain order exactly if they form one chain |
| `LocatorResolve.BuildRangeProof` | internal/all/locator_range.go:321-384 | over a tree's own pages the proof holds exactly the leaves of the entries and their neighbours, consecutive and in order |
| `LocatorResolve.ScanLeaves` | internal/all/locator_range.go:133-169 | the leaf chain yields the entries up to the bound; a chain that repeats a page is an error |
| `LocatorResolve.ResolveRangeWithReader` | internal/all/locator_range.go:91-179 | returns only results the verifier accepts, whatever the reader; over a reader that serves the trusted tree it succeeds exactly if lower sorts before upper, with the exact answer |
| `LocatorTreeQueries.ResolveRange` | internal/all/locator_range.go:61-74 | over an in-memory tree every range is answered with exactly the records in it and their neighbours, and with a proof that is accepted |
| `LocatorTreeQueries.BoundsSelect` | internal/all/locator_range.go:21-47 | the key range of a query holds exactly the keys with its four fields and a time in its interval |
| `LocatorTreeQueries.VerifyLocatorQueryResult` | internal/all/locator_range.go:540-550 | accepts exactly the results of valid queries that are accepted for the key range of the query |
| `LocatorTreeQueries.QueryResultsAreSound` | internal/all/locator_range.go:540-550 | a query result accepted against the root of a locator tree holds exactly the tree's records that match the query, in order, with the nearest records on either side, or the hash collides |
| `LocatorTreeQueries.Resolve` | internal/all/locator_range.go:49-57 | a logical query returns exactly the matching records, the greatest record below its key range and the least at or above its end, and a proof that is accepted for that range against the tree's root; it fails exactly if a field is empty, a time is not set or the interval is empty |
| `Encoding.ReadBytesIs` | internal/all/page_codec.go:268-303 | reading a length-prefixed string returns v and the rest exactly if the data is the encoding of v followed by the rest |
| `KeyCodec.UnmarshalKeyIs` | internal/all/page_codec.go:176-214 | decoding accepts exactly the encodings of representable keys and restores them |
| `KeyCodec.UnmarshalValueIs` | internal/all/page_codec.go:216-258 | decoding accepts exactly the encodings of representable values and restores them |
| `PageCodec.MarshalPage` | internal/all/page_codec.go:18-50 | encodes a page, and fails exactly if keys do not match values or children |
| `PageCodec.UnmarshalPage` | internal/all/page_codec.go:54-136 | accepts exactly the encodings of representable pages: decoding an encoded page restores it, and every accepted string is the encoding of what it decodes to |
| `PageCodec.EncodedInjective` | internal/all/page_codec.go:18-50 | different pages have different encodings |
| `ByteLayout.PageLayout` | internal/all/page_codec.go:18-50 | a stored page is the version, the kind, the count of keys in four bytes, each key with its length, and then each value with its length or each child's identifier and hash, at these offsets |
| `ByteLayout.KeyLayout` | internal/all/locator_key.go:55-71 | a key is tenant, service, log type and region, each with its length, the time and the identifier, in this order and at these offsets |
| `ByteLayout.ValueLayout` | internal/all/locator_key.go:73-88 | a value is the byte 0, or 1 and then region, shard, segment and leaf, each with its length, in this order |
| `PageStorage.UnmarshalStoredPage` | internal/all/page_codec.go:140-166 | accepts exactly the stored forms of pages whose hash is that of their contents, and restores them |
| `PageStorage.TreePagesRestore` | internal/all/locator_page.go:54-76 | every page of a locator tree passes the hash check of its stored form |
| `Preimages.SameSeparators` | internal/all/locator_page.go:71-76 | an internal page's separators and child hashes are determined by its hashed bytes, although no count is written, given one more child than keys |
| `Preimages.HashedBytesInjective` | internal/all/locator_page.go:54-76 | hashed data is determined by its bytes, across leaf pages, internal pages, node pairs, tree and state commitments |
| `ByteLayout.LeafPageLayout` | internal/all/locator_page.go:54-69 | a leaf page is hashed as LEAF, its identifier, whether there is a next page and which, and each key with its value |
| `ByteLayout.InternalPageLayout` | internal/all/locator_page.go:71-76 | an internal page is hashed as INTERNAL, its separators and then its children's hashes, each at its offset |
| `ByteLayout.CommittedTrees` | internal/hmf/commitment.go:10-48 | the commitments of the four layers are hashed with their own word, region, shard, segment, leaf count and raw root, -1 standing for what a layer does not have |
| `ByteLayout.PairLayout` | internal/domain/hash.go:7-15 | a pair of nodes is hashed as NODE, left and right |
| `ByteLayout.CheckpointCommitted` | internal/checkpoint/commitment.go:13-27 | a checkpoint is hashed as STATE, its sequence, the locator's root and the forest's |
| `Checkpoints.RunLater` | internal/checkpoint/service.go:47-161 | along a run roots, identifier and time of a row never change, finalized rows not at all, and the published sequence never decreases |
| `Checkpoints.ReadersNeverConflict` | internal/storage/cassandra/checkpoint_store.go:41-66 | a reader that reads the finality state at one moment and the history row at any later one never meets the conflict error, and gets a valid finalized checkpoint whose receipt was issued for its commitment |
| `CheckpointService.Service.SavePending` | internal/storage/cassandra/checkpoint_store.go:68-99 | adds the pending row after the last, published one; landed or not, the store stays consistent |
| `CheckpointService.Service.PublishFinalized` | internal/storage/cassandra/checkpoint_store.go:101-147 | row first, finality state second, each of which may fail: the store is consistent in between |
| `CheckpointService.Service.AnchorAndPublish` | internal/checkpoint/service.go:142-161 | publishes the pending checkpoint with a receipt the anchor issued for its commitment |
| `CheckpointService.Service.Finalize` | internal/checkpoint/service.go:47-134 | succeeds exactly if no store, anchor or capture call failed on the way and there is a checkpoint to resume or a state to capture; with a failure at any step sequences are 1..n with only n possibly pending, the published one is n or n - 1, every finalized row was anchored first; a new checkpoint has the snapshot's roots, a resumed one the roots it had |
| `SegmentWorkers.MappingsAreStable` | internal/hm/segment_worker.go:106-119 | every submitted mapping names an address of its own, and once its segment is sealed the forest holds the log's digest there at every later state |
| `SegmentWorkers.PropagateKeeps` | internal/hm/manager.go:284-312 | the mapping of a leaf just appended is the first for its address |
| `SegmentWorkers.CloseKeeps` | internal/hm/manager.go:130-173 | sealing and appending a segment keeps every submitted mapping held, and extends the run of the forest |
| `WorkerManager.Manager.NextSegmentID` | internal/hm/manager.go:175-183 | an identifier no segment of the shard has had |
| `WorkerManager.Manager.OpenSegment` | internal/hm/manager.go:85-111 | opens an empty segment exactly if the shard exists and has no active one |
| `WorkerManager.Manager.CloseSegment` | internal/hm/manager.go:130-173 | succeeds exactly for an active segment with leaves, which becomes the next segment of the forest; otherwise nothing changes |
| `WorkerManager.Manager.HandleRequest` | internal/hm/segment_worker.go:76-119 | attached with room: nothing is sealed and the log's digest becomes the last leaf of the active segment; full: that segment becomes the next of the forest and the digest is leaf 0 of a new one; not attached: a segment with the next identifier is opened, then leaf 0; one mapping is submitted, to that leaf; refused exactly if the log has no time, no segment can be opened, or there is no locator or it does not accept |
| `WorkerManager.Manager.HandleTimer` | internal/hm/segment_worker.go:120-127 | a segment with leaves becomes the next of the forest and an empty one is open in its place; an empty segment stays open |
| `WorkerManager.Manager.HandleStop` | internal/hm/segment_worker.go:71-82 | a stopping worker seals its segment if that has leaves: it becomes the next of the forest, and none is active |
| `Layout.NewFairLayout` | benchmarks/latency/fixture.go:73-89 | accepts exactly regions with a record for each shard, and places them one after the other; the layout is valid exactly if its number of records fits int64 |
| `Layout.ShardsPartition` | benchmarks/latency/fixture.go:91-95 | near-equal shards follow each other without gaps, none is empty, and together they fill the region |
| `Layout.ShardsNearEqual` | benchmarks/latency/fixture.go:62-65 | of two shards of a region the first has as many records as the second, or one more |
| `Layout.Address` | benchmarks/latency/fixture.go:108-123 | two binary searches find the one canonical address of an ordinal, which is canonical, and its ordinal is that one |
| `Layout.OrdinalInverts` | benchmarks/latency/fixture.go:127-146 | an accepted address has an ordinal of the layout and is that ordinal's address exactly if its region name is canonical and its offset does not wrap |
| `Layout.WrappedSegment` | benchmarks/latency/fixture.go:137-146 | with segments of 2^15 leaves, an address 2^49 segments after a record's is accepted with the record's ordinal |
| `Layout.NegativeOrdinal` | benchmarks/latency/fixture.go:137-146 | with segments of 2^15 leaves, segment 2^48 of the first shard is accepted with a negative ordinal |
| `Layout.PlaceUnique` | benchmarks/latency/fixture.go:108-146 | no ordinal is stored at two places |
| `Layout.PlacesFollow` | benchmarks/latency/fixture.go:60-65 | ordinal 0 is at the first leaf of all, and the next ordinal in the next leaf, or in leaf 0 of the next segment if the segment is full, or at the start of the next shard or region |
| `Layout.SignedRegion` | benchmarks/latency/fixture.go:127-132 | the address of every record has a twin, its region written with a sign, that differs from it and is accepted with the same ordinal |

## Left out

- ProofBuilding.BuildProof: requires that the rows read are those of the storage's nodes, as `RowsOfRun` shows of the writer's; rows of another table or an older moment are not modelled.
- LocatorTrees.LocatorTree.InsertWithUpdate: requires a key that is not in the tree, because the range verifier demands strictly ordered keys; `insert` itself puts an equal key after the first.
- LocatorTreeQueries.Resolve: requires log identifiers of 16 bytes, which the source's type guarantees.
- LocatorQueries.FindLeaf: requires that children of readable pages never lead back to an ancestor, as the source's descent would not end; `ResolveRange` shows it of every tree.
- UpdateOrder.RootIsCurrentIffLast: about the stored Global root only; `HoldsIffCurrent` is about everything stored.
- Checkpoints.ReadersNeverConflict: one service writes, as the lock of the service is per instance; clocks never return the zero time, and stored times compare as they were written.
- WorkerManager.Manager.HandleRequest: one worker runs for a shard and handles an event at a time; start and end times of segments, and the decimal text of a mapping's numbers, are not modelled.
- SegmentWorkers.MappingsAreStable: safety of submitted mappings only; a worker that stopped with an empty segment leaves it active, and later workers of that shard cannot open another.
- Persistence.StepHolds: an update persisted completely, on top of the ones made before it; `InterruptedServes` is about an update that stops between its writes, and says nothing of addresses below the trees it has reached.
- Persistence.RunsHold: every append is persisted completely and in the order the appends were made; `HoldsIffCurrent` is about other orders. Segment identifiers are fresh, as `NextSegmentID` shows.
- Persistence.RunsServe: about the same runs as `RunsHold`.
- PersistenceOrder.HoldsIffCurrent: all updates of the run are persisted, each completely, and each shard's in the order its worker made them.
- LocatorTrees.LocatorTree.constructor: requires an order of at least 3, which `NewALL` and the update writer check; `NewLocatorTree` itself does not.
- LocatorTrees.LocatorTree.Insert: requires a key that is not in the tree, as `InsertWithUpdate` does.
- LocatorQueries.PredecessorEntry: requires pages whose children never lead back to an ancestor, as `FindLeaf` does.
- LocatorQueries.SuccessorEntry: requires such pages too.
- LocatorResolve.BuildRangeProof: requires such pages too.
- LocatorResolve.ScanLeaves: requires such pages too; the leaf chain itself may repeat.
- LocatorResolve.ResolveRangeWithReader: requires such pages too.
- PageCodec.UnmarshalPage: representable means what the format's fixed widths hold, times included, and a length of every encoded key and value below 2^32.
- Errors: which error is returned, and its text; an error is one value `Err`.
- Numbers: mathematical integers where the source has int64 counters and indexes, except in the codec and in the offsets of the benchmark layout; leaf counts stay below 2^63 - 1, and segment counters do not wrap.
- Hash comparison in constant time, encryption of logs, the dataset reader: equality, and library behaviour.
- The order in which Go iterates over a map: collected as sets, as every result is sorted or a map.
- Slices shared between a returned page and the tree: pages are values, and what is returned is stated at the moment of return.
- The shape and scope strings of a node request: determined by its tree.
- How queries for rows are batched, partitioned and run at once: each row a request names is read once.
- The flag that turns the recording of a trace off: traces are always recorded.
- The type of a tree's identifier in node stores: one map keyed by the tree instead of a table for each layer.
- Cassandra and PostgreSQL queries, batching, goroutines, HTTP handlers, configuration, logging, benchmark timing and plots.
- The mock anchor's receipts: any receipt can be issued.
- The forest built for the benchmark (`newFairForest`): the same trees as the modelled ones, over given leaves.
