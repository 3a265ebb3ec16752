/** Persisting an update that stops between its writes: what was stored before keeps being served wherever the update
    has not reached the trees above it (internal/storage/cassandra/hmf_update_writer.go:27-79). */
module InterruptedUpdates {
  import opened Hashing
  import opened Merkle
  import opened NodeStore
  import opened Forests
  import opened ForestTrees
  import opened ProofInputs
  import opened Planner
  import opened ProofBuilding
  import opened RequestCounts
  import opened StoredForest
  import opened Persistence
  import opened UpdateOrder
  import opened PersistenceOrder

  const ALL_WRITES := 10

  /** The storage after the first writes of an update: the nodes and the row of its segment, the nodes of the Shard, the
      Region and the Global tree, the frontier, and the states of the segment and the three trees. What is read of a
      segment is its row. */
  function PersistPart(storage: Storage, e: Update, writes: nat): Storage {
    var segment, shard, region := SegmentRef(e.key, e.segmentID), ShardRef(e.key), P.RegionTree(e.key.regionID);
    var u, nodes, trees := e.report, storage.nodes, storage.meta.trees;
    var nodes := if writes < 1 then nodes
      else nodes[segment := Replay(StoreOf(storage, segment), NodesBelow(e.leaves, Height(|e.leaves|) + 1))];
    var trees := if writes < 2 then trees else trees[segment := TreeMetadata(|e.leaves|, u.shard.leafIndex, true)];
    var nodes := if writes < 3 then nodes else nodes[shard := Replay(StoreOf(storage, shard), u.shard.nodes)];
    var nodes := if writes < 4 then nodes else nodes[region := Replay(StoreOf(storage, region), u.region.nodes)];
    var nodes := if writes < 5 then nodes
      else nodes[P.GLOBAL_TREE := Replay(StoreOf(storage, P.GLOBAL_TREE), u.global.nodes)];
    var trees := if writes < 8 then trees else trees[shard := TreeMetadata(u.shard.leaves, u.region.leafIndex, true)];
    var trees := if writes < 9 then trees else trees[region := TreeMetadata(u.region.leaves, u.global.leafIndex, true)];
    Storage(HierarchyMetadata(trees, if writes < 10 then storage.meta.globalLeafCount else u.global.leaves), nodes)
  }

  /** The trees that the first writes of an update have begun to change. */
  function Reached(e: Update, writes: nat): set<P.TreeRef> {
    (if writes < 1 then {} else {SegmentRef(e.key, e.segmentID)})
    + (if writes < 3 then {} else {ShardRef(e.key)})
    + (if writes < 4 then {} else {P.RegionTree(e.key.regionID)})
    + if writes < 5 then {} else {P.GLOBAL_TREE}
  }

  /** Two storages that differ in these trees only. */
  ghost predicate OnlyAt(a: Storage, b: Storage, trees: set<P.TreeRef>) {
    && (forall t :: t !in trees ==> RecordOf(a, t) == RecordOf(b, t))
    && (P.GLOBAL_TREE !in trees ==> a.meta.globalLeafCount == b.meta.globalLeafCount)
  }

  /** The writes change the trees they reach and no others, and all of them are the whole update. */
  lemma PartsReach(storage: Storage, e: Update, writes: nat)
    ensures OnlyAt(storage, PersistPart(storage, e, writes), Reached(e, writes))
    ensures writes >= ALL_WRITES ==> PersistPart(storage, e, writes) == PersistOne(storage, e)
  {
    hide Replay, NodesBelow, Height;
    forall t | t !in Reached(e, writes) ensures RecordOf(storage, t) == RecordOf(PersistPart(storage, e, writes), t) {}
  }

  // ---- Proofs of addresses below other trees ----

  ghost predicate Spares(addresses: seq<P.PhysicalAddress>, trees: set<P.TreeRef>) {
    forall t :: t in Planned(addresses) ==> t !in trees
  }

  lemma SameTree(a: Storage, b: Storage, trees: set<P.TreeRef>, addresses: seq<P.PhysicalAddress>, t: P.TreeRef)
    requires OnlyAt(a, b, trees) && Spares(addresses, trees) && t in Planned(addresses)
    ensures SlotFor(a.meta, t) == SlotFor(b.meta, t) && LeafCountOf(a.meta, t) == LeafCountOf(b.meta, t)
    ensures t in a.meta.trees <==> t in b.meta.trees
    ensures t in a.meta.trees ==> a.meta.trees[t] == b.meta.trees[t]
    ensures StoreOf(a, t) == StoreOf(b, t) && (t in a.nodes <==> t in b.nodes)
  {
    hide Planned;
    assert RecordOf(a, t) == RecordOf(b, t);
  }

  lemma SameTargets(a: Storage, b: Storage, trees: set<P.TreeRef>, addresses: seq<P.PhysicalAddress>, t: P.TreeRef)
    requires OnlyAt(a, b, trees) && Spares(addresses, trees) && t in Planned(addresses)
    ensures PlannedTargets(addresses, a.meta, t) == PlannedTargets(addresses, b.meta, t)
    ensures TreePlannable(addresses, a.meta, t) <==> TreePlannable(addresses, b.meta, t)
    ensures TreePlannable(addresses, a.meta, t) ==> PlanFor(addresses, a.meta, t) == PlanFor(addresses, b.meta, t)
  {
    hide OnlyAt, Spares, SlotFor, LeafCountOf, PlannedAt;
    SameTree(a, b, trees, addresses, t);
    if t.layer != P.LAYER_SEGMENT {
      forall c | c in PlannedAt(addresses, t.layer - 1) ensures SlotFor(a.meta, c) == SlotFor(b.meta, c) {
        SameTree(a, b, trees, addresses, c);
      }
    }
  }

  lemma SamePlannable(a: Storage, b: Storage, trees: set<P.TreeRef>, addresses: seq<P.PhysicalAddress>)
    requires OnlyAt(a, b, trees) && Spares(addresses, trees) && Plannable(addresses, a.meta)
    ensures Plannable(addresses, b.meta) && PlanOf(addresses, a.meta) == PlanOf(addresses, b.meta)
    ensures RequiredSet(addresses, a.meta) == RequiredSet(addresses, b.meta)
  {
    hide OnlyAt, Spares, Planned, SlotFor, TreePlannable, PlanFor, SortTrees, SortLinks, PlanOf;
    forall t | t in Planned(addresses)
      ensures TreePlannable(addresses, b.meta, t) && SlotFor(a.meta, t) == SlotFor(b.meta, t)
      ensures TreePlannable(addresses, a.meta, t) && PlanFor(addresses, a.meta, t) == PlanFor(addresses, b.meta, t)
    {
      SameTree(a, b, trees, addresses, t);
      SameTargets(a, b, trees, addresses, t);
    }
    SamePlans(a.meta, b.meta, addresses);
  }

  lemma SamePlans(a: HierarchyMetadata, b: HierarchyMetadata, addresses: seq<P.PhysicalAddress>)
    requires Plannable(addresses, a) && Plannable(addresses, b)
    requires forall t :: t in Planned(addresses) ==>
      TreePlannable(addresses, a, t) && TreePlannable(addresses, b, t) && SlotFor(a, t) == SlotFor(b, t)
      && PlanFor(addresses, a, t) == PlanFor(addresses, b, t)
    ensures PlanOf(addresses, a) == PlanOf(addresses, b)
  {
    hide Plannable, Planned, SlotFor, TreePlannable, PlanFor, SortTrees, SortLinks;
    var trees := SortTrees(Planned(addresses));
    SortedPlannable(addresses, a);
    SortedPlannable(addresses, b);
    assert forall i :: 0 <= i < |trees| ==> trees[i] in trees;
    assert PlanOf(addresses, a).trees == PlanOf(addresses, b).trees;
    assert (set t | t in Planned(addresses) && t != P.GLOBAL_TREE :: LinkFor(a, t))
      == set t | t in Planned(addresses) && t != P.GLOBAL_TREE :: LinkFor(b, t);
  }

  /** Storages that differ only in trees above none of the addresses give them the same proof. */
  lemma SameProof(a: Storage, b: Storage, trees: set<P.TreeRef>, addresses: seq<P.PhysicalAddress>)
    requires OnlyAt(a, b, trees) && Spares(addresses, trees) && Plannable(addresses, a.meta) && AllStored(a, addresses)
    ensures Plannable(addresses, b.meta) && AllStored(b, addresses) && ProofOf(b, addresses) == ProofOf(a, addresses)
  {
    hide OnlyAt, Spares, Plannable, PlanOf, RequiredSet, LeafRefs, SortRefs;
    SamePlannable(a, b, trees, addresses);
    var refs := LeafRefs(addresses) + RequiredSet(addresses, a.meta);
    forall ref | ref in refs ensures IsStored(b, ref) && StoredHash(b, ref) == StoredHash(a, ref) {
      NeededPlanned(addresses, a.meta, ref);
      SameTree(a, b, trees, addresses, ref.tree);
    }
    SameRead(a, b, addresses);
  }

  lemma NeededPlanned(addresses: seq<P.PhysicalAddress>, meta: HierarchyMetadata, ref: P.NodeRef)
    requires Plannable(addresses, meta) && ref in LeafRefs(addresses) + RequiredSet(addresses, meta)
    ensures ref.tree in Planned(addresses)
  {
    hide Plannable;
  }

  lemma SameRead(a: Storage, b: Storage, addresses: seq<P.PhysicalAddress>)
    requires Plannable(addresses, a.meta) && Plannable(addresses, b.meta)
    requires PlanOf(addresses, a.meta) == PlanOf(addresses, b.meta)
    requires RequiredSet(addresses, a.meta) == RequiredSet(addresses, b.meta) && AllStored(a, addresses)
    requires forall ref :: ref in LeafRefs(addresses) + RequiredSet(addresses, a.meta) ==>
      IsStored(a, ref) && IsStored(b, ref) && StoredHash(b, ref) == StoredHash(a, ref)
    ensures AllStored(b, addresses) && ProofOf(b, addresses) == ProofOf(a, addresses)
  {
    hide Plannable, PlanOf, RequiredSet, IsStored, StoredHash, LeafRef, SortRefs, ReadSet, StoredLeaves;
    assert forall x :: x in addresses ==> LeafRef(x) in LeafRefs(addresses);
    SameLeavesRead(a, b, addresses);
    SameNodesRead(a, b, RequiredSet(addresses, a.meta));
  }

  lemma SameLeavesRead(a: Storage, b: Storage, addresses: seq<P.PhysicalAddress>)
    requires forall x :: x in addresses ==>
      IsStored(a, LeafRef(x)) && IsStored(b, LeafRef(x)) && StoredHash(b, LeafRef(x)) == StoredHash(a, LeafRef(x))
    ensures StoredLeaves(a, addresses) == StoredLeaves(b, addresses)
  {
    hide IsStored, StoredHash, LeafRef;
  }

  lemma SameNodesRead(a: Storage, b: Storage, refs: set<P.NodeRef>)
    requires forall ref :: ref in refs ==>
      IsStored(a, ref) && IsStored(b, ref) && StoredHash(b, ref) == StoredHash(a, ref)
    ensures ReadSet(a, refs) == ReadSet(b, refs)
  {
    hide IsStored, StoredHash, SortRefs;
    var sorted := SortRefs(refs);
    assert forall i :: 0 <= i < |sorted| ==> sorted[i] in refs;
  }

  // ---- Interrupted updates ----

  /** The addresses lie in no tree that the first writes change, other than the new segment. */
  predicate Beside(e: Update, writes: nat, requested: seq<P.PhysicalAddress>) {
    && writes < 5
    && (writes >= 3 ==> forall a :: a in requested ==> ShardKey(a.regionID, a.shardID) != e.key)
    && (writes >= 4 ==> forall a :: a in requested ==> a.regionID != e.key.regionID)
  }

  lemma BesideSpares(f: Forest, c: Contents, e: Update, writes: nat, requested: seq<P.PhysicalAddress>)
    requires Stored(f, c) && AllSealed(f, c, requested) && FreshSegment(f, e.key, e.segmentID)
    requires Beside(e, writes, requested)
    ensures Spares(requested, Reached(e, writes))
  {
    hide WellFormed, Backed, Sealed, Planned;
    forall a | a in requested ensures P.SegmentOf(a) != SegmentRef(e.key, e.segmentID) { SealedIsOld(f, c, e, a); }
    forall t | t in Planned(requested) ensures t !in Reached(e, writes) { PlannedAbove(requested, t); }
  }

  lemma SealedIsOld(f: Forest, c: Contents, e: Update, a: P.PhysicalAddress)
    requires Stored(f, c) && Sealed(f, c, a) && FreshSegment(f, e.key, e.segmentID)
    ensures P.SegmentOf(a) != SegmentRef(e.key, e.segmentID)
  {
    hide WellFormed, Backed, LeavesOf;
  }

  /** Every planned tree is the segment, shard or region of an address, or the Global tree. */
  lemma PlannedAbove(addresses: seq<P.PhysicalAddress>, t: P.TreeRef)
    requires t in Planned(addresses)
    ensures t == P.GLOBAL_TREE
      || exists a :: a in addresses && (t == P.SegmentOf(a) || t == P.ShardTree(a.regionID, a.shardID)
                                        || t == P.RegionTree(a.regionID))
    ensures t.layer == P.LAYER_SEGMENT ==> exists a :: a in addresses && t == P.SegmentOf(a)
    decreases t.layer
  {
    if t.layer > P.LAYER_SEGMENT {
      var c :| c in PlannedAt(addresses, t.layer - 1) && t == ParentTree(c);
      PlannedAbove(addresses, c);
    }
  }

  /** An update that stops after some of its writes, or in the middle of one, leaves every address it has not reached
      served as before: until the Shard tree is written all of them, then those of other shards, and then those of other
      regions. Their proofs still verify to the root before the append. */
  lemma InterruptedServes(run: seq<System>, i: nat, e: Update, writes: nat, after: Storage,
                          requested: seq<P.PhysicalAddress>)
    requires IsRun(run) && i < |run| && requested != [] && FreshSegment(run[i].forest, e.key, e.segmentID)
    requires OnlyAt(run[i].storage, after, Reached(e, writes)) && Beside(e, writes, requested)
    requires Inv(run[i]) ==> AllSealed(run[i].forest, run[i].contents, requested)
    ensures Inv(run[i]) && Normalized(requested).Ok?
    ensures var s, addresses := run[i], Normalized(requested).value;
      && Plannable(addresses, s.storage.meta) && AllStored(s.storage, addresses)
      && Plannable(addresses, after.meta) && AllStored(after, addresses)
      && ProofOf(after, addresses) == ProofOf(s.storage, addresses)
      && Verifier.VerifiedRoot(ProofOf(after, addresses), requested) == Result.Ok(ForestRoot(s.forest))
  {
    hide IsRun, Faithful, Complete, WellFormed, Backed, Sealed, Plannable, AllStored, AskedOnce, Normalized, ForestRoot,
      Verifier.VerifiedRoot, ProofOf, OnlyAt, Reached, FreshSegment, Beside, Spares;
    RunsHold(run, i);
    EndToEnd(run[i].forest, run[i].contents, run[i].storage, requested);
    var addresses := Normalized(requested).value;
    NormalElements(requested);
    BesideSpares(run[i].forest, run[i].contents, e, writes, requested);
    SamePlanned(requested, addresses, Reached(e, writes));
    SameProof(run[i].storage, after, Reached(e, writes), addresses);
  }

  lemma SamePlanned(requested: seq<P.PhysicalAddress>, addresses: seq<P.PhysicalAddress>, trees: set<P.TreeRef>)
    requires Spares(requested, trees) && forall a :: a in addresses <==> a in requested
    ensures Spares(addresses, trees)
  {
    forall t | t in Planned(addresses) ensures t !in trees { PlannedSame(requested, addresses, t.layer); }
  }

  lemma {:induction false} PlannedSame(a: seq<P.PhysicalAddress>, b: seq<P.PhysicalAddress>, layer: int)
    requires forall x :: x in a <==> x in b
    ensures PlannedAt(a, layer) == PlannedAt(b, layer)
    decreases layer
  {
    if layer > P.LAYER_SEGMENT { PlannedSame(a, b, layer - 1); }
  }
}
