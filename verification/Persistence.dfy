/** Persisting what each sealed segment changes (internal/storage/cassandra/hmf_update_writer.go)
    keeps the storage holding the forest, over any run. */
module Persistence {
  import opened Hashing
  import opened Merkle
  import opened NodeStore
  import opened SegmentTrees
  import opened ShardTrees
  import opened FixedTrees
  import opened PersistedNodes
  import opened Forests
  import opened HierarchicalForest
  import opened ForestTrees
  import P = ProofTypes
  import opened Planner
  import opened ProofBuilding
  import opened RequestCounts
  import opened StoredForest

  /** A forest together with the leaves of its sealed segments and what is persisted. */
  datatype System = System(forest: Forest, contents: Contents, storage: Storage)

  function StoreOf(storage: Storage, t: P.TreeRef): Store {
    if t in storage.nodes then storage.nodes[t] else map[]
  }

  /** Writes the nodes and the tree states of one sealed segment. */
  function Persist(storage: Storage, key: ShardKey, segmentID: int, segmentNodes: seq<MerkleNode>, segmentLeaves: int,
                   u: HMFUpdate): Storage {
    var segment := P.SegmentTree(key.regionID, key.shardID, segmentID);
    var shard, region := P.ShardTree(key.regionID, key.shardID), P.RegionTree(key.regionID);
    Storage(
      HierarchyMetadata(
        storage.meta.trees[segment := TreeMetadata(segmentLeaves, u.shard.leafIndex, true)]
                          [shard := TreeMetadata(u.shard.leaves, u.region.leafIndex, true)]
                          [region := TreeMetadata(u.region.leaves, u.global.leafIndex, true)],
        u.global.leaves),
      storage.nodes[segment := Replay(StoreOf(storage, segment), segmentNodes)]
                   [shard := Replay(StoreOf(storage, shard), u.shard.nodes)]
                   [region := Replay(StoreOf(storage, region), u.region.nodes)]
                   [P.GLOBAL_TREE := Replay(StoreOf(storage, P.GLOBAL_TREE), u.global.nodes)])
  }

  /** Segment identifiers are never reused within a shard. */
  predicate FreshSegment(f: Forest, key: ShardKey, segmentID: int) {
    key in f.segments && !HasSegment(f.segments[key], segmentID)
  }

  predicate Appendable(s: System, key: ShardKey, segmentID: int, leaves: seq<Digest>) {
    FreshSegment(s.forest, key, segmentID) && segmentID >= 0 && leaves != []
  }

  /** A segment with these leaves is sealed, appended and persisted. */
  ghost predicate AppendStep(s: System, s': System, key: ShardKey, segmentID: int, leaves: seq<Digest>, u: HMFUpdate) {
    && Appendable(s, key, segmentID, leaves)
    && s'.forest == Appended(s.forest, key, SealedSegment(segmentID, |leaves|, Root(leaves)))
    && Reports(s'.forest, key, u)
    && s'.contents == s.contents[P.SegmentTree(key.regionID, key.shardID, segmentID) := leaves]
    && s'.storage == Persist(s.storage, key, segmentID, NodesBelow(leaves, Height(|leaves|) + 1), |leaves|, u)
  }

  ghost predicate StartsAs(s: System, regionIDs: seq<Text>, numShards: nat) {
    && regionIDs != [] && numShards > 0 && ValidRegions(regionIDs) && s.forest == EmptyForest(regionIDs, numShards)
    && |s.contents| == 0 && |s.storage.meta.trees| == 0 && s.storage.meta.globalLeafCount == 0 && |s.storage.nodes| == 0
  }

  ghost predicate Init(s: System) {
    exists regionIDs, numShards :: StartsAs(s, regionIDs, numShards)
  }

  ghost predicate Next(s: System, s': System) {
    exists key, segmentID, leaves, u :: AppendStep(s, s', key, segmentID, leaves, u)
  }

  ghost predicate IsRun(run: seq<System>) {
    && run != [] && Init(run[0])
    && forall i :: 0 <= i < |run| - 1 ==> Next(run[i], run[i + 1])
  }

  ghost predicate Inv(s: System) {
    Holds(s.forest, s.contents, s.storage)
  }

  lemma InitHolds(s: System)
    requires Init(s)
    ensures Inv(s)
  {
    hide Agrees, LeavesOf, ChildAt, Covered, Full;
    var regionIDs: seq<Text>, numShards: nat :| StartsAs(s, regionIDs, numShards);
    EmptyWellFormed(regionIDs, numShards);
  }

  // ---- How the trees change ----

  function SegmentRef(key: ShardKey, segmentID: int): P.TreeRef {
    P.SegmentTree(key.regionID, key.shardID, segmentID)
  }

  function ShardRef(key: ShardKey): P.TreeRef {
    P.ShardTree(key.regionID, key.shardID)
  }

  predicate Above(key: ShardKey, t: P.TreeRef) {
    t == ShardRef(key) || t == P.RegionTree(key.regionID) || t == P.GLOBAL_TREE
  }

  /** After the append: the same trees and the new segment, and only trees on its path changed. */
  ghost predicate TreesStep(f: Forest, f': Forest, c: Contents, c': Contents, key: ShardKey, seg: P.TreeRef,
                            leaves: seq<Digest>) {
    && Stored(f, c) && Stored(f', c')
    && HasTree(f', seg) && !HasTree(f, seg) && LeavesOf(f', c', seg) == leaves
    && (forall t :: HasTree(f', t) <==> HasTree(f, t) || t == seg)
    && (forall t :: HasTree(f, t) ==> TreeKept(f, f', c, c', key, t))
  }

  ghost predicate TreeKept(f: Forest, f': Forest, c: Contents, c': Contents, key: ShardKey, t: P.TreeRef)
    requires Stored(f, c) && Stored(f', c') && HasTree(f, t)
  {
    && HasTree(f', t)
    && (!Above(key, t) ==> LeavesOf(f', c', t) == LeavesOf(f, c, t))
    && |LeavesOf(f', c', t)| == |LeavesOf(f, c, t)| + (if t == ShardRef(key) then 1 else 0)
    && (t.layer != P.LAYER_SEGMENT ==> forall i :: 0 <= i < |LeavesOf(f, c, t)| ==>
        ChildAt(f', t, i) == ChildAt(f, t, i))
  }

  lemma TreesStepped(s: System, s': System, key: ShardKey, segmentID: int, leaves: seq<Digest>, u: HMFUpdate)
    requires Inv(s) && AppendStep(s, s', key, segmentID, leaves, u)
    ensures TreesStep(s.forest, s'.forest, s.contents, s'.contents, key, SegmentRef(key, segmentID), leaves)
  {
    hide Faithful, Complete, Reports, Persist, Root, WellFormed, LeavesOf, HasTree, Appended, TreeKept;
    var f, f', seg := s.forest, s'.forest, SegmentRef(key, segmentID);
    var sealed := SealedSegment(segmentID, |leaves|, Root(leaves));
    AppendedChanges(f, key, sealed);
    AppendedBacked(f, s.contents, key, sealed, leaves);
    forall t ensures HasTree(f', t) <==> HasTree(f, t) || t == seg { AppendedTrees(f, key, sealed, t); }
    AppendedTrees(f, key, sealed, seg);
    NewSegment(f', s'.contents, seg, leaves);
    forall t | HasTree(f, t) ensures TreeKept(f, f', s.contents, s'.contents, key, t) {
      TreeStepped(f, s.contents, key, sealed, leaves, t);
    }
  }

  lemma AppendedBacked(f: Forest, c: Contents, key: ShardKey, sealed: SealedSegment, leaves: seq<Digest>)
    requires Backed(f, c) && FreshSegment(f, key, sealed.segmentID)
    requires leaves != [] && sealed.leafCount == |leaves| && sealed.rawRoot == Root(leaves)
    ensures Backed(Appended(f, key, sealed), c[SegmentRef(key, sealed.segmentID) := leaves])
  {
    hide Root;
    var f', c' := Appended(f, key, sealed), c[SegmentRef(key, sealed.segmentID) := leaves];
    forall k, i | k in f'.segments && 0 <= i < |f'.segments[k]| ensures SegmentBacked(k, f'.segments[k][i], c') {
      if k != key || i < |f.segments[key]| {
        assert SegmentBacked(k, f.segments[k][i], c);
      }
    }
  }

  lemma AppendedTrees(f: Forest, key: ShardKey, sealed: SealedSegment, t: P.TreeRef)
    requires FreshSegment(f, key, sealed.segmentID)
    ensures HasTree(Appended(f, key, sealed), t) <==> HasTree(f, t) || t == SegmentRef(key, sealed.segmentID)
    ensures !HasTree(f, SegmentRef(key, sealed.segmentID))
  {
    var before, after := f.segments[key], Appended(f, key, sealed).segments[key];
    assert after[|before|] == sealed;
    assert forall id :: HasSegment(before, id) ==> HasSegment(after, id) by {
      forall id | HasSegment(before, id) ensures HasSegment(after, id) {
        var i :| 0 <= i < |before| && before[i].segmentID == id;
        assert after[i].segmentID == id;
      }
    }
    assert t == P.TreeRef(t.layer, t.regionID, t.shardID, t.segmentID);
  }

  lemma NewSegment(f: Forest, c: Contents, seg: P.TreeRef, leaves: seq<Digest>)
    requires Stored(f, c) && HasTree(f, seg) && seg.layer == P.LAYER_SEGMENT && seg in c && c[seg] == leaves
    ensures LeavesOf(f, c, seg) == leaves
  {}

  lemma TreeStepped(f: Forest, c: Contents, key: ShardKey, sealed: SealedSegment, leaves: seq<Digest>, t: P.TreeRef)
    requires FreshSegment(f, key, sealed.segmentID)
    requires var f', c' := Appended(f, key, sealed), c[SegmentRef(key, sealed.segmentID) := leaves];
      && Stored(f, c) && Stored(f', c') && HasTree(f, t) && HasTree(f', t)
      && ShardChanged(f, f', key, sealed) && RegionChanged(f, f', key) && GlobalChanged(f, f', key.regionID)
    ensures TreeKept(f, Appended(f, key, sealed), c, c[SegmentRef(key, sealed.segmentID) := leaves], key, t)
  {
    hide WellFormed, Backed, ShardLeaves, RegionLeaves, GlobalLeaves, ShardCommitment, RegionCommitment, RegionIndex;
    if t.layer == P.LAYER_SEGMENT {
      SegmentStepped(f, c, key, sealed, leaves, t);
    } else if t.layer == P.LAYER_SHARD {
      assert KeyOf(t) == key <==> t == ShardRef(key);
    } else if t.layer == P.LAYER_REGION {
      assert t.regionID == key.regionID <==> t == P.RegionTree(key.regionID);
    }
  }

  lemma SegmentStepped(f: Forest, c: Contents, key: ShardKey, sealed: SealedSegment, leaves: seq<Digest>, t: P.TreeRef)
    requires FreshSegment(f, key, sealed.segmentID)
    requires var f', c' := Appended(f, key, sealed), c[SegmentRef(key, sealed.segmentID) := leaves];
      && Stored(f, c) && Stored(f', c') && HasTree(f, t) && HasTree(f', t)
    requires t.layer == P.LAYER_SEGMENT
    ensures var f', c' := Appended(f, key, sealed), c[SegmentRef(key, sealed.segmentID) := leaves];
      LeavesOf(f', c', t) == LeavesOf(f, c, t)
  {
    hide WellFormed, Backed;
  }

  // ---- How the stores change ----

  ghost predicate StoresStep(before: Storage, after: Storage, f: Forest, c: Contents, key: ShardKey, seg: P.TreeRef)
    requires Stored(f, c)
  {
    && (forall t :: t != seg && !Above(key, t) ==>
          (t in after.nodes <==> t in before.nodes) && (t in before.nodes ==> after.nodes[t] == before.nodes[t]))
    && StoreHolds(after, f, c, seg) && StoreHolds(after, f, c, ShardRef(key))
    && RegionRewritten(before, after, f, c, key) && GlobalRewritten(before, after, f, c, key)
  }

  /** The store holds the whole tree. */
  ghost predicate StoreHolds(storage: Storage, f: Forest, c: Contents, t: P.TreeRef)
    requires Stored(f, c)
  {
    HasTree(f, t) && t in storage.nodes && storage.nodes[t] == NodeMap(LeavesOf(f, c, t))
  }

  ghost predicate RegionRewritten(before: Storage, after: Storage, f: Forest, c: Contents, key: ShardKey)
    requires Stored(f, c)
  {
    var t := P.RegionTree(key.regionID);
    HasTree(f, t) && PathRewrittenIn(before, after, LeavesOf(f, c, t), t, key.shardID)
  }

  ghost predicate GlobalRewritten(before: Storage, after: Storage, f: Forest, c: Contents, key: ShardKey)
    requires Stored(f, c)
  {
    key.regionID in f.regionIDs && HasTree(f, P.GLOBAL_TREE)
    && PathRewrittenIn(before, after, LeavesOf(f, c, P.GLOBAL_TREE), P.GLOBAL_TREE,
                       RegionIndex(f.regionIDs, key.regionID))
  }

  ghost predicate PathRewrittenIn(before: Storage, after: Storage, leaves: seq<Digest>, t: P.TreeRef, index: int) {
    && t in after.nodes && 0 <= index < |leaves| && Agrees(after.nodes[t], leaves)
    && Covered(after.nodes[t], |leaves|, index)
    && StoreOf(before, t).Keys <= after.nodes[t].Keys
  }

  lemma StoresStepped(s: System, s': System, key: ShardKey, segmentID: int, leaves: seq<Digest>, u: HMFUpdate)
    requires Inv(s) && AppendStep(s, s', key, segmentID, leaves, u)
    requires TreesStep(s.forest, s'.forest, s.contents, s'.contents, key, SegmentRef(key, segmentID), leaves)
    ensures StoresStep(s.storage, s'.storage, s'.forest, s'.contents, key, SegmentRef(key, segmentID))
  {
    hide WellFormed, Backed, Faithful, Complete, TreeKept, LeavesOf, HasTree, Appended, Reports, StoreHolds,
      RegionRewritten, GlobalRewritten, Root, Replay, NodesBelow;
    SegmentStored(s, s', key, segmentID, leaves, u);
    ShardStored(s, s', key, segmentID, leaves, u);
    RegionStored(s, s', key, segmentID, leaves, u);
    GlobalStored(s, s', key, segmentID, leaves, u);
  }

  lemma SegmentStored(s: System, s': System, key: ShardKey, segmentID: int, leaves: seq<Digest>, u: HMFUpdate)
    requires Inv(s) && AppendStep(s, s', key, segmentID, leaves, u)
    requires TreesStep(s.forest, s'.forest, s.contents, s'.contents, key, SegmentRef(key, segmentID), leaves)
    ensures StoreHolds(s'.storage, s'.forest, s'.contents, SegmentRef(key, segmentID))
  {
    hide WellFormed, Backed, Complete, TreeKept, LeavesOf, HasTree, Appended, Reports, Root, Replay, NodesBelow,
      Agrees, NodeMap;
    var seg := SegmentRef(key, segmentID);
    StoredTrees(s, seg);
    SealedNodesSuffice(leaves);
  }

  lemma StoredTrees(s: System, t: P.TreeRef)
    requires Inv(s)
    ensures t in s.storage.nodes ==> HasTree(s.forest, t)
  {
    hide WellFormed, Backed, Complete, HasTree, LeavesOf, Agrees;
  }

  lemma ShardStored(s: System, s': System, key: ShardKey, segmentID: int, leaves: seq<Digest>, u: HMFUpdate)
    requires Inv(s) && AppendStep(s, s', key, segmentID, leaves, u)
    requires TreesStep(s.forest, s'.forest, s.contents, s'.contents, key, SegmentRef(key, segmentID), leaves)
    ensures StoreHolds(s'.storage, s'.forest, s'.contents, ShardRef(key))
  {
    hide WellFormed, Backed, Faithful, Complete, TreeKept, LeavesOf, HasTree, Appended, Reports, Root, Replay,
      NodesBelow, NodeMap, LastPath, Height, Persist, StoreOf, ShardLeaves, SegmentCommitment, RegionReport,
      GlobalReport, RegionChanged, GlobalChanged;
    ShardPersisted(s, s', key, segmentID, leaves, u);
    var known, sealed := ShardLeaves(s.forest, key), SealedSegment(segmentID, |leaves|, Root(leaves));
    ShardStoreBefore(s, key);
    AppendReport(s.forest, s'.forest, key, sealed, u);
    ShardLeavesIs(s'.forest, s'.contents, key);
    AppendedNodesSuffice(known, SegmentCommitment(key, sealed));
  }

  lemma ShardPersisted(s: System, s': System, key: ShardKey, segmentID: int, leaves: seq<Digest>, u: HMFUpdate)
    requires AppendStep(s, s', key, segmentID, leaves, u)
    ensures ShardRef(key) in s'.storage.nodes
    ensures s'.storage.nodes[ShardRef(key)] == Replay(StoreOf(s.storage, ShardRef(key)), u.shard.nodes)
  {
    hide Replay, StoreOf, Reports, Root, NodesBelow, Appended;
  }

  /** Before an append the store holds the Shard tree, or nothing if it is empty. */
  lemma ShardStoreBefore(s: System, key: ShardKey)
    requires Inv(s) && key in s.forest.segments
    ensures var known := ShardLeaves(s.forest, key);
      StoreOf(s.storage, ShardRef(key)) == if known == [] then map[] else NodeMap(known)
  {
    hide WellFormed, Backed, ShardLeaves;
    var t, known := ShardRef(key), ShardLeaves(s.forest, key);
    assert KeyOf(t) == key && HasTree(s.forest, t) && LeavesOf(s.forest, s.contents, t) == known;
    if t in s.storage.nodes { assert NodesTrue(s.forest, s.contents, t, s.storage.nodes[t]); }
    if known == [] {
      EmptyStore(StoreOf(s.storage, t));
    } else {
      var seg := SegmentRef(key, s.forest.segments[key][0].segmentID);
      assert KeyOf(seg) == key && HasSegment(s.forest.segments[key], seg.segmentID);
      assert SegmentHeld(s.forest, s.contents, s.storage, seg);
      FullAgrees(s.storage, t, known);
    }
  }

  lemma EmptyStore(store: Store)
    requires Agrees(store, [])
    ensures store == map[]
  {
    if p :| p in store {
      WidthAtMost(0, p.level);
    }
  }

  lemma FullAgrees(storage: Storage, t: P.TreeRef, leaves: seq<Digest>)
    requires Full(storage, t, |leaves|) && Agrees(storage.nodes[t], leaves)
    ensures storage.nodes[t] == NodeMap(leaves)
  {
    hide InTree, NodeAt;
  }

  lemma ShardLeavesIs(f: Forest, c: Contents, key: ShardKey)
    requires Stored(f, c) && key in f.segments
    ensures HasTree(f, ShardRef(key)) && LeavesOf(f, c, ShardRef(key)) == ShardLeaves(f, key)
  {
    hide ShardLeaves;
    assert KeyOf(ShardRef(key)) == key;
  }

  lemma AppendReport(f: Forest, f': Forest, key: ShardKey, sealed: SealedSegment, u: HMFUpdate)
    requires WellFormed(f) && key in f.segments && sealed.segmentID >= 0 && sealed.leafCount > 0
    requires f' == Appended(f, key, sealed) && Reports(f', key, u)
    ensures key in f'.segments && ShardLeaves(f', key) == ShardLeaves(f, key) + [SegmentCommitment(key, sealed)]
    ensures u.shard.nodes == LastPath(ShardLeaves(f', key), Height(|ShardLeaves(f', key)|) + 1)
    ensures u.shard.leaves == |f'.segments[key]| && u.shard.leafIndex == u.shard.leaves - 1
    ensures WellFormed(f') && f'.regionIDs == f.regionIDs && f'.numShards == f.numShards
    ensures RegionReport(f', key, u.region) && RegionChanged(f, f', key)
    ensures GlobalReport(f', key.regionID, u.global) && GlobalChanged(f, f', key.regionID)
  {
    hide WellFormed, ShardLeaves, RegionChanged, GlobalChanged, RegionReport, GlobalReport, Appended, LastPath, Height,
      Peaks;
    AppendedChanges(f, key, sealed);
  }

  lemma RegionStored(s: System, s': System, key: ShardKey, segmentID: int, leaves: seq<Digest>, u: HMFUpdate)
    requires Inv(s) && AppendStep(s, s', key, segmentID, leaves, u)
    requires TreesStep(s.forest, s'.forest, s.contents, s'.contents, key, SegmentRef(key, segmentID), leaves)
    ensures RegionRewritten(s.storage, s'.storage, s'.forest, s'.contents, key)
  {
    hide WellFormed, Backed, Faithful, Complete, TreeKept, LeavesOf, HasTree, Appended, Reports, Root, Replay,
      NodesBelow, PathUpdates, RegionLeaves, Agrees, Covered, ShardLeaves, ShardCommitment, LastPath;
    var f, f', t := s.forest, s'.forest, P.RegionTree(key.regionID);
    AppendReport(f, f', key, SealedSegment(segmentID, |leaves|, Root(leaves)), u);
    RegionLeavesIs(f', s'.contents, key.regionID);
    RegionLeavesIs(f, s.contents, key.regionID);
    StoreAgrees(s, t);
    UpdateKeepsStore(StoreOf(s.storage, t), RegionLeaves(f, key.regionID), key.shardID, ShardCommitment(f', key));
  }

  lemma RegionLeavesIs(f: Forest, c: Contents, regionID: Text)
    requires Stored(f, c) && regionID in f.regionIDs
    ensures HasTree(f, P.RegionTree(regionID)) && LeavesOf(f, c, P.RegionTree(regionID)) == RegionLeaves(f, regionID)
  {
    hide RegionLeaves;
  }

  lemma StoreAgrees(s: System, t: P.TreeRef)
    requires Inv(s) && HasTree(s.forest, t)
    ensures Agrees(StoreOf(s.storage, t), LeavesOf(s.forest, s.contents, t))
  {
    hide WellFormed, Backed, Complete, LeavesOf, HasTree;
    if t in s.storage.nodes { assert NodesTrue(s.forest, s.contents, t, s.storage.nodes[t]); }
  }

  lemma GlobalStored(s: System, s': System, key: ShardKey, segmentID: int, leaves: seq<Digest>, u: HMFUpdate)
    requires Inv(s) && AppendStep(s, s', key, segmentID, leaves, u)
    requires TreesStep(s.forest, s'.forest, s.contents, s'.contents, key, SegmentRef(key, segmentID), leaves)
    ensures GlobalRewritten(s.storage, s'.storage, s'.forest, s'.contents, key)
  {
    hide WellFormed, Backed, Faithful, Complete, TreeKept, LeavesOf, HasTree, Appended, Reports, Root, Replay,
      NodesBelow, PathUpdates, GlobalLeaves, Agrees, Covered, ShardLeaves, RegionCommitment, RegionIndex, LastPath;
    var f, f', t := s.forest, s'.forest, P.GLOBAL_TREE;
    AppendReport(f, f', key, SealedSegment(segmentID, |leaves|, Root(leaves)), u);
    GlobalLeavesIs(f', s'.contents);
    GlobalLeavesIs(f, s.contents);
    StoreAgrees(s, t);
    UpdateKeepsStore(StoreOf(s.storage, t), GlobalLeaves(f), RegionIndex(f.regionIDs, key.regionID),
                     RegionCommitment(f', key.regionID));
  }

  lemma GlobalLeavesIs(f: Forest, c: Contents)
    requires Stored(f, c)
    ensures HasTree(f, P.GLOBAL_TREE) && LeavesOf(f, c, P.GLOBAL_TREE) == GlobalLeaves(f)
  {
    hide GlobalLeaves;
  }

  // ---- Every step keeps the invariant ----

  ghost predicate MetaStep(before: HierarchyMetadata, after: HierarchyMetadata, f: Forest, c: Contents, key: ShardKey,
                           seg: P.TreeRef)
    requires Stored(f, c)
  {
    && (forall t :: t != seg && !Above(key, t) ==>
          (t in after.trees <==> t in before.trees) && (t in before.trees ==> after.trees[t] == before.trees[t]))
    && seg in after.trees && after.trees[seg].sealed && MetaTrue(f, c, seg, after.trees[seg])
    && ShardRef(key) in after.trees && MetaTrue(f, c, ShardRef(key), after.trees[ShardRef(key)])
    && P.RegionTree(key.regionID) in after.trees
    && MetaTrue(f, c, P.RegionTree(key.regionID), after.trees[P.RegionTree(key.regionID)])
    && P.GLOBAL_TREE !in after.trees && after.globalLeafCount == |f.regionIDs|
  }

  lemma MetaStepped(s: System, s': System, key: ShardKey, segmentID: int, leaves: seq<Digest>, u: HMFUpdate)
    requires Inv(s) && AppendStep(s, s', key, segmentID, leaves, u)
    requires TreesStep(s.forest, s'.forest, s.contents, s'.contents, key, SegmentRef(key, segmentID), leaves)
    ensures MetaStep(s.storage.meta, s'.storage.meta, s'.forest, s'.contents, key, SegmentRef(key, segmentID))
  {
    hide WellFormed, Backed, Complete, TreeKept, LeavesOf, HasTree, Reports, Root, Replay, NodesBelow, RegionLeaves,
      GlobalLeaves, RegionIndex, Agrees, Covered, ShardLeaves, ShardCommitment, RegionCommitment, LastPath,
      PathUpdates, NodesTrue, ForestRoot, Height, ShardChanged, RegionChanged, GlobalChanged;
    var f' := s'.forest;
    AppendReport(s.forest, f', key, SealedSegment(segmentID, |leaves|, Root(leaves)), u);
    ShardLeavesIs(f', s'.contents, key);
    RegionLeavesIs(f', s'.contents, key.regionID);
    GlobalLeavesIs(f', s'.contents);
  }

  lemma StepHolds(s: System, s': System, key: ShardKey, segmentID: int, leaves: seq<Digest>, u: HMFUpdate)
    requires Inv(s) && AppendStep(s, s', key, segmentID, leaves, u)
    ensures Inv(s')
  {
    hide WellFormed, Backed, Faithful, Complete, AppendStep, TreesStep, StoresStep, MetaStep;
    TreesStepped(s, s', key, segmentID, leaves, u);
    StoresStepped(s, s', key, segmentID, leaves, u);
    MetaStepped(s, s', key, segmentID, leaves, u);
    SameRegions(s, s', key, segmentID, leaves, u);
    StepFaithful(s, s', key, SegmentRef(key, segmentID), leaves);
    StepComplete(s, s', key, SegmentRef(key, segmentID), leaves);
  }

  lemma SameRegions(s: System, s': System, key: ShardKey, segmentID: int, leaves: seq<Digest>, u: HMFUpdate)
    requires AppendStep(s, s', key, segmentID, leaves, u)
    ensures s'.forest.regionIDs == s.forest.regionIDs && s'.forest.numShards == s.forest.numShards
  {
    hide Reports, Persist, Root, NodesBelow;
  }

  /** The facts about one step that the invariant needs. */
  ghost predicate Stepped(s: System, s': System, key: ShardKey, seg: P.TreeRef, leaves: seq<Digest>) {
    && Inv(s) && seg.layer == P.LAYER_SEGMENT && seg.regionID == key.regionID && seg.shardID == key.shardID
    && TreesStep(s.forest, s'.forest, s.contents, s'.contents, key, seg, leaves)
    && StoresStep(s.storage, s'.storage, s'.forest, s'.contents, key, seg)
    && MetaStep(s.storage.meta, s'.storage.meta, s'.forest, s'.contents, key, seg)
    && s'.forest.regionIDs == s.forest.regionIDs && s'.forest.numShards == s.forest.numShards
  }

  lemma StepFaithful(s: System, s': System, key: ShardKey, seg: P.TreeRef, leaves: seq<Digest>)
    requires Stepped(s, s', key, seg, leaves)
    ensures Stored(s'.forest, s'.contents) && Faithful(s'.forest, s'.contents, s'.storage)
  {
    hide WellFormed, Backed, Complete, LeavesOf, HasTree, MetaTrue, NodesTrue, StoreHolds, RegionRewritten,
      GlobalRewritten, TreeKept;
    forall t | t in s'.storage.meta.trees ensures MetaTrue(s'.forest, s'.contents, t, s'.storage.meta.trees[t]) {
      if t != seg && !Above(key, t) { MetaKept(s, s', key, seg, leaves, t); }
    }
    forall t | t in s'.storage.nodes ensures NodesTrue(s'.forest, s'.contents, t, s'.storage.nodes[t]) {
      NodesKept(s, s', key, seg, leaves, t);
    }
  }

  lemma MetaKept(s: System, s': System, key: ShardKey, seg: P.TreeRef, leaves: seq<Digest>, t: P.TreeRef)
    requires Stepped(s, s', key, seg, leaves) && t != seg && !Above(key, t) && t in s.storage.meta.trees
    ensures MetaTrue(s'.forest, s'.contents, t, s.storage.meta.trees[t])
  {
    hide WellFormed, Backed, Complete, LeavesOf, HasTree, NodesTrue, StoreHolds, RegionRewritten, GlobalRewritten,
      ChildAt, MetaStep, StoresStep;
    assert MetaTrue(s.forest, s.contents, t, s.storage.meta.trees[t]);
    assert TreeKept(s.forest, s'.forest, s.contents, s'.contents, key, t);
    assert TreeKept(s.forest, s'.forest, s.contents, s'.contents, key, ParentTree(t));
  }

  lemma NodesKept(s: System, s': System, key: ShardKey, seg: P.TreeRef, leaves: seq<Digest>, t: P.TreeRef)
    requires Stepped(s, s', key, seg, leaves) && t in s'.storage.nodes
    ensures NodesTrue(s'.forest, s'.contents, t, s'.storage.nodes[t])
  {
    hide WellFormed, Backed, Complete, LeavesOf, HasTree, MetaTrue, MetaStep, NodeMap, Covered;
    if t == seg || t == ShardRef(key) {
      MapAgrees(LeavesOf(s'.forest, s'.contents, t));
    } else if !Above(key, t) {
      assert NodesTrue(s.forest, s.contents, t, s.storage.nodes[t]);
      assert TreeKept(s.forest, s'.forest, s.contents, s'.contents, key, t);
    }
  }

  lemma MapAgrees(leaves: seq<Digest>)
    ensures Agrees(NodeMap(leaves), leaves) && forall p :: InTree(|leaves|, p) ==> p in NodeMap(leaves)
  {
    hide InTree, NodeAt;
  }

  lemma StepComplete(s: System, s': System, key: ShardKey, seg: P.TreeRef, leaves: seq<Digest>)
    requires Stepped(s, s', key, seg, leaves)
    ensures Complete(s'.forest, s'.contents, s'.storage)
  {
    hide WellFormed, Backed, Faithful, LeavesOf, HasTree, MetaStep, StoresStep, SegmentHeld, TreeKept;
    forall t | HasTree(s'.forest, t) && t.layer == P.LAYER_SEGMENT
      ensures SegmentHeld(s'.forest, s'.contents, s'.storage, t) {
      SegmentStaysHeld(s, s', key, seg, leaves, t);
    }
  }

  lemma SegmentStaysHeld(s: System, s': System, key: ShardKey, seg: P.TreeRef, leaves: seq<Digest>, t: P.TreeRef)
    requires Stepped(s, s', key, seg, leaves) && HasTree(s'.forest, t) && t.layer == P.LAYER_SEGMENT
    ensures SegmentHeld(s'.forest, s'.contents, s'.storage, t)
  {
    hide WellFormed, Backed, Faithful, LeavesOf, HasTree, MetaStep, StoresStep, TreesStep, Full, Covered, TreeKept,
      RegionIndex;
    if t != seg {
      assert HasTree(s.forest, t) by { hide *; OldSegment(s, s', key, seg, leaves, t); }
      assert SegmentHeld(s.forest, s.contents, s.storage, t);
    }
    MetaHeld(s, s', key, seg, leaves, t);
    SegmentStaysFull(s, s', key, seg, leaves, t);
    ShardStaysFull(s, s', key, seg, leaves, t);
    RegionStaysCovered(s, s', key, seg, leaves, t);
    GlobalStaysCovered(s, s', key, seg, leaves, t);
  }

  lemma OldSegment(s: System, s': System, key: ShardKey, seg: P.TreeRef, leaves: seq<Digest>, t: P.TreeRef)
    requires Stepped(s, s', key, seg, leaves) && HasTree(s'.forest, t) && t != seg
    ensures HasTree(s.forest, t)
  {
    hide WellFormed, Backed, Faithful, Complete, LeavesOf, HasTree, MetaStep, StoresStep, TreeKept;
  }

  lemma MetaHeld(s: System, s': System, key: ShardKey, seg: P.TreeRef, leaves: seq<Digest>, t: P.TreeRef)
    requires Stepped(s, s', key, seg, leaves) && HasTree(s'.forest, t) && t.layer == P.LAYER_SEGMENT
    requires t != seg ==> HasTree(s.forest, t) && SegmentHeld(s.forest, s.contents, s.storage, t)
    ensures var meta := s'.storage.meta;
      && t in meta.trees && meta.trees[t].sealed && ParentTree(t) in meta.trees
      && P.RegionTree(t.regionID) in meta.trees
      && meta.globalLeafCount == |s'.forest.regionIDs|
  {
    hide WellFormed, Backed, Faithful, Complete, LeavesOf, HasTree, StoresStep, TreesStep, Full, Covered, MetaTrue,
      RegionIndex;
  }

  lemma SegmentStaysFull(s: System, s': System, key: ShardKey, seg: P.TreeRef, leaves: seq<Digest>, t: P.TreeRef)
    requires Stepped(s, s', key, seg, leaves) && HasTree(s'.forest, t) && t.layer == P.LAYER_SEGMENT
    requires t != seg ==> HasTree(s.forest, t) && SegmentHeld(s.forest, s.contents, s.storage, t)
    ensures Full(s'.storage, t, |LeavesOf(s'.forest, s'.contents, t)|)
  {
    hide WellFormed, Backed, Faithful, Complete, LeavesOf, HasTree, MetaStep, RegionRewritten, GlobalRewritten, InTree,
      Covered, NodeMap, RegionIndex;
    if t == seg {
      MapAgrees(LeavesOf(s'.forest, s'.contents, t));
    } else {
      assert TreeKept(s.forest, s'.forest, s.contents, s'.contents, key, t);
    }
  }

  lemma ShardStaysFull(s: System, s': System, key: ShardKey, seg: P.TreeRef, leaves: seq<Digest>, t: P.TreeRef)
    requires Stepped(s, s', key, seg, leaves) && HasTree(s'.forest, t) && t.layer == P.LAYER_SEGMENT
    requires t != seg ==> HasTree(s.forest, t) && SegmentHeld(s.forest, s.contents, s.storage, t)
    ensures HasTree(s'.forest, ParentTree(t))
    ensures Full(s'.storage, ParentTree(t), |LeavesOf(s'.forest, s'.contents, ParentTree(t))|)
  {
    hide WellFormed, Backed, Faithful, Complete, LeavesOf, HasTree, MetaStep, RegionRewritten, GlobalRewritten, InTree,
      Covered, NodeMap, RegionIndex;
    if ParentTree(t) == ShardRef(key) {
      MapAgrees(LeavesOf(s'.forest, s'.contents, ParentTree(t)));
    } else {
      assert TreeKept(s.forest, s'.forest, s.contents, s'.contents, key, ParentTree(t));
    }
  }

  lemma StaysCovered(before: Storage, after: Storage, leaves: seq<Digest>, t: P.TreeRef, index: int, n: nat, i: int)
    requires PathRewrittenIn(before, after, leaves, t, index) && n == |leaves|
    requires i != index ==> t in before.nodes && Covered(before.nodes[t], n, i)
    ensures Covered(after.nodes[t], n, i)
  {
    hide Agrees;
    if i != index { forall l | 0 <= l <= Height(n)
                   ensures CoveredAt(after.nodes[t], n, i, l) { assert CoveredAt(before.nodes[t], n, i, l); } }
  }

  lemma RegionStaysCovered(s: System, s': System, key: ShardKey, seg: P.TreeRef, leaves: seq<Digest>, t: P.TreeRef)
    requires Stepped(s, s', key, seg, leaves) && HasTree(s'.forest, t) && t.layer == P.LAYER_SEGMENT
    requires t != seg ==> HasTree(s.forest, t) && SegmentHeld(s.forest, s.contents, s.storage, t)
    ensures P.RegionTree(t.regionID) in s'.storage.nodes
    ensures Covered(s'.storage.nodes[P.RegionTree(t.regionID)], s'.forest.numShards, t.shardID)
  {
    hide WellFormed, Backed, Faithful, Complete, LeavesOf, HasTree, MetaStep, GlobalRewritten, StoreHolds, Covered,
      TreeKept, PathRewrittenIn, RegionIndex, Full;
    var region := P.RegionTree(t.regionID);
    if t.regionID == key.regionID {
      RegionSize(s'.forest, s'.contents, key.regionID);
      CoveredOr(s, s', key, seg, leaves, t);
      StaysCovered(s.storage, s'.storage, LeavesOf(s'.forest, s'.contents, region), region, key.shardID,
                   s'.forest.numShards, t.shardID);
    }
    RegionPresent(s.storage, s'.storage, s'.forest, s'.contents, key);
  }

  lemma RegionPresent(before: Storage, after: Storage, f: Forest, c: Contents, key: ShardKey)
    requires Stored(f, c) && RegionRewritten(before, after, f, c, key)
    ensures P.RegionTree(key.regionID) in after.nodes
  {
    hide WellFormed, Backed, LeavesOf, HasTree, Agrees, Covered;
  }

  lemma RegionSize(f: Forest, c: Contents, regionID: Text)
    requires Stored(f, c) && HasTree(f, P.RegionTree(regionID))
    ensures |LeavesOf(f, c, P.RegionTree(regionID))| == f.numShards
  {
    hide RegionLeaves;
  }

  lemma CoveredOr(s: System, s': System, key: ShardKey, seg: P.TreeRef, leaves: seq<Digest>, t: P.TreeRef)
    requires Stepped(s, s', key, seg, leaves) && t.layer == P.LAYER_SEGMENT && t.regionID == key.regionID
    requires t != seg ==> HasTree(s.forest, t) && SegmentHeld(s.forest, s.contents, s.storage, t)
    ensures t.shardID != key.shardID ==>
      P.RegionTree(t.regionID) in s.storage.nodes
      && Covered(s.storage.nodes[P.RegionTree(t.regionID)], s'.forest.numShards, t.shardID)
  {
    hide WellFormed, Backed, Faithful, Complete, LeavesOf, HasTree, MetaStep, StoresStep, TreesStep, Covered,
      RegionIndex, Full;
  }

  lemma GlobalStaysCovered(s: System, s': System, key: ShardKey, seg: P.TreeRef, leaves: seq<Digest>, t: P.TreeRef)
    requires Stepped(s, s', key, seg, leaves) && HasTree(s'.forest, t) && t.layer == P.LAYER_SEGMENT
    requires t != seg ==> HasTree(s.forest, t) && SegmentHeld(s.forest, s.contents, s.storage, t)
    ensures t.regionID in s'.forest.regionIDs && P.GLOBAL_TREE in s'.storage.nodes
    ensures Covered(s'.storage.nodes[P.GLOBAL_TREE], |s'.forest.regionIDs|,
                    RegionIndex(s'.forest.regionIDs, t.regionID))
  {
    hide WellFormed, Backed, Faithful, Complete, LeavesOf, HasTree, MetaStep, RegionRewritten, StoreHolds, Covered,
      TreeKept, PathRewrittenIn, RegionIndex, Full;
    GlobalSize(s'.forest, s'.contents);
    var regionIDs, global := s'.forest.regionIDs, P.GLOBAL_TREE;
    StaysCovered(s.storage, s'.storage, LeavesOf(s'.forest, s'.contents, global), global,
                 RegionIndex(regionIDs, key.regionID),
                 |regionIDs|, RegionIndex(regionIDs, t.regionID));
    GlobalPresent(s.storage, s'.storage, s'.forest, s'.contents, key);
  }

  lemma GlobalPresent(before: Storage, after: Storage, f: Forest, c: Contents, key: ShardKey)
    requires Stored(f, c) && GlobalRewritten(before, after, f, c, key)
    ensures P.GLOBAL_TREE in after.nodes
  {
    hide WellFormed, Backed, LeavesOf, HasTree, Agrees, Covered, RegionIndex;
  }

  /** Along every run the storage holds the forest. */
  lemma {:induction false} RunsHold(run: seq<System>, i: nat)
    requires IsRun(run) && i < |run|
    ensures Inv(run[i])
    decreases i
  {
    hide Inv, Init, AppendStep;
    if i == 0 {
      InitHolds(run[0]);
    } else {
      RunsHold(run, i - 1);
      var key, segmentID, leaves, u :| AppendStep(run[i - 1], run[i - 1 + 1], key, segmentID, leaves, u);
      StepHolds(run[i - 1], run[i], key, segmentID, leaves, u);
    }
  }

  /** At any point of any run, every non-empty list of sealed addresses gets a proof whose verified
      root is the forest's. */
  lemma RunsServe(run: seq<System>, i: nat, requested: seq<P.PhysicalAddress>)
    requires IsRun(run) && i < |run| && requested != []
    requires Inv(run[i]) ==> AllSealed(run[i].forest, run[i].contents, requested)
    ensures Inv(run[i]) && ProofInputs.Normalized(requested).Ok?
    ensures var s, addresses := run[i], ProofInputs.Normalized(requested).value;
      && Plannable(addresses, s.storage.meta) && AllStored(s.storage, addresses) && AskedOnce(addresses, s.storage.meta)
      && RowsServe(s.storage, addresses)
      && Verifier.VerifiedRoot(ProofOf(s.storage, addresses), requested) == Result.Ok(ForestRoot(s.forest))
  {
    hide IsRun, Holds, AllSealed, Plannable, AllStored, AskedOnce, RowsServe, ProofInputs.Normalized, ForestRoot,
      Verifier.VerifiedRoot;
    RunsHold(run, i);
    EndToEnd(run[i].forest, run[i].contents, run[i].storage, requested);
  }

  /** Once a segment is sealed, each of its addresses names the same leaf digest forever. */
  lemma {:induction false} SealedForever(run: seq<System>, i: nat, j: nat, a: P.PhysicalAddress)
    requires IsRun(run) && i <= j < |run|
    requires Inv(run[i]) && Sealed(run[i].forest, run[i].contents, a)
    ensures Inv(run[j]) && Sealed(run[j].forest, run[j].contents, a)
    ensures LeavesOf(run[j].forest, run[j].contents, P.SegmentOf(a))
      == LeavesOf(run[i].forest, run[i].contents, P.SegmentOf(a))
    decreases j - i
  {
    hide WellFormed, Backed, Faithful, Complete, Init, AppendStep, HasTree, LeavesOf;
    RunsHold(run, j);
    if i < j {
      SealedForever(run, i, j - 1, a);
      var key, segmentID, leaves, u :| AppendStep(run[j - 1], run[j - 1 + 1], key, segmentID, leaves, u);
      TreesStepped(run[j - 1], run[j], key, segmentID, leaves, u);
      assert TreeKept(run[j - 1].forest, run[j].forest, run[j - 1].contents, run[j].contents, key, P.SegmentOf(a));
    }
  }
}
