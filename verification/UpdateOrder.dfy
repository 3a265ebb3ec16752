/** The order in which updates are persisted. A worker appends its segment under the forest's mutex but hands the update
    over after releasing it (internal/hm/manager.go:144-152, internal/hm/segment_worker.go:55-60), so updates of
    different shards can be persisted in another order than they were made. */
module UpdateOrder {
  import opened Hashing
  import opened Merkle
  import opened NodeStore
  import opened ShardTrees
  import opened FixedTrees
  import opened PersistedNodes
  import opened Forests
  import opened HierarchicalForest
  import opened ForestTrees
  import opened ForestsDiffer
  import opened ProofBuilding
  import opened StoredForest
  import opened Persistence

  function TopPosition(n: nat): Position {
    Position(Height(n), 0)
  }

  /** The last path written decides the stored root, whatever was stored before. */
  lemma PathDecidesRoot(store: Store, leaves: seq<Digest>, index: nat)
    requires index < |leaves|
    ensures var top, after := TopPosition(|leaves|), Replay(store, PathUpdates(leaves, index));
      top in after && after[top] == Merkle.Root(leaves)
  {
    hide Replay, PathUpdates, Row, Height, AllNodes, Emitted;
    PathUpdatesAre(leaves, index);
    ReplayNodes(store, leaves, PathUpdates(leaves, index));
    AncestorInRange(|leaves|, index, Height(|leaves|));
    TopWidth(|leaves|);
    assert EmittedOnPath(leaves, PathUpdates(leaves, index), index, Height(|leaves|));
  }

  /** Persisting an update over any storage leaves the Global root of the forest right after its own append. */
  lemma PersistedRoot(s: System, s': System, key: ShardKey, segmentID: int, leaves: seq<Digest>, u: HMFUpdate,
                      before: Storage, nodes: seq<MerkleNode>)
    requires Inv(s) && AppendStep(s, s', key, segmentID, leaves, u) && WellFormed(s'.forest)
    ensures GlobalLeaves(s'.forest) != []
    ensures var after, top := Persist(before, key, segmentID, nodes, |leaves|, u),
      TopPosition(|GlobalLeaves(s'.forest)|);
      P.GLOBAL_TREE in after.nodes && top in after.nodes[P.GLOBAL_TREE]
      && after.nodes[P.GLOBAL_TREE][top] == Merkle.Root(GlobalLeaves(s'.forest))
  {
    hide WellFormed, Backed, Faithful, Complete, Appended, Replay, NodesBelow, PathUpdates, GlobalLeaves, ShardLeaves,
      RegionCommitment, RegionIndex, LastPath, TopPosition, Merkle.Root, ShardReport, RegionReport, ForestRoot;
    var global, index := GlobalLeaves(s'.forest), RegionIndex(s'.forest.regionIDs, key.regionID);
    SizeOfGlobal(s'.forest);
    PathDecidesRoot(StoreOf(before, P.GLOBAL_TREE), global, index);
  }

  lemma SizeOfGlobal(f: Forest)
    requires WellFormed(f)
    ensures |GlobalLeaves(f)| == |f.regionIDs| > 0
  {}

  /** If the update persisted last is not that of the last append, the storage holds the forest only through a hash
      collision. Persisted in order, every step leaves a storage that holds its forest (RunsHold). */
  lemma OutOfOrderIsStale(run: seq<System>, i: nat, j: nat, before: Storage, key: ShardKey, segmentID: int,
                          leaves: seq<Digest>, u: HMFUpdate, nodes: seq<MerkleNode>)
    requires IsRun(run) && i + 1 < j < |run| && AppendStep(run[i], run[i + 1], key, segmentID, leaves, u)
    requires Holds(run[j].forest, run[j].contents, Persist(before, key, segmentID, nodes, |leaves|, u))
    ensures Inv(run[i + 1]) && RootsCollide(run[i + 1], run[j])
  {
    hide Init, Next, Complete, Persist, WellFormed, Backed, AppendStep, GlobalLeaves, Merkle.Root, TopPosition,
      LeavesOf, HasTree, ForestRoot, RootsCollide;
    RunsHold(run, i);
    RunsHold(run, i + 1);
    PersistedRoot(run[i], run[i + 1], key, segmentID, leaves, u, before, nodes);
    SameSize(run, i + 1, j);
    SizeOfGlobal(run[i + 1].forest);
    SizeOfGlobal(run[j].forest);
    GlobalLeavesIs(run[j].forest, run[j].contents);
    StoredRootIs(run[j].forest, run[j].contents, Persist(before, key, segmentID, nodes, |leaves|, u));
    LaterRootDiffers(run, i + 1, j);
  }

  /** A hash collision between two states of the forest. */
  ghost predicate RootsCollide(s: System, s': System)
    requires Stored(s.forest, s.contents) && Stored(s'.forest, s'.contents)
  {
    Collide(ForestPreimages(s.forest, s.contents), ForestPreimages(s'.forest, s'.contents))
  }

  /** Each append changes the Global root, then and at all later states, unless the hash collides. */
  lemma LaterRootDiffers(run: seq<System>, i: nat, j: nat)
    requires IsRun(run) && i < j < |run|
    ensures Inv(run[i]) && Inv(run[j]) && |GlobalLeaves(run[i].forest)| == |GlobalLeaves(run[j].forest)| > 0
    ensures Merkle.Root(GlobalLeaves(run[i].forest)) == Merkle.Root(GlobalLeaves(run[j].forest)) ==>
      RootsCollide(run[i], run[j])
  {
    hide Init, Faithful, Complete, WellFormed, Backed, AppendStep, GlobalLeaves, Merkle.Root, ForestRoot, ShardLeaves,
      RootsCollide, ForestPreimages;
    RunsHold(run, i);
    RunsHold(run, j);
    SameSize(run, i, j);
    SizeOfGlobal(run[i].forest);
    SizeOfGlobal(run[j].forest);
    var key, segmentID, leaves, u :| AppendStep(run[i], run[i + 1], key, segmentID, leaves, u);
    ShardGrows(run[i], run[i + 1], key, segmentID, leaves, u);
    ShardsKeep(run, i + 1, j, key);
    if Merkle.Root(GlobalLeaves(run[i].forest)) == Merkle.Root(GlobalLeaves(run[j].forest)) {
      SameRoot(run[i].forest, run[j].forest);
      SameShards(run[i], run[j], key);
    }
  }

  lemma SameShards(s: System, s': System, key: ShardKey)
    requires Stored(s.forest, s.contents) && Stored(s'.forest, s'.contents) && s'.forest.regionIDs == s.forest.regionIDs
    requires s'.forest.numShards == s.forest.numShards && key in s.forest.segments
    requires ForestRoot(s.forest) == ForestRoot(s'.forest)
    ensures key in s'.forest.segments && (|s.forest.segments[key]| == |s'.forest.segments[key]| || RootsCollide(s, s'))
  {
    hide WellFormed, Backed, ForestRoot, ForestPreimages, Collide;
    SameRootSameShards(s.forest, s.contents, s'.forest, s'.contents, key);
  }

  lemma ShardGrows(s: System, s': System, key: ShardKey, segmentID: int, leaves: seq<Digest>, u: HMFUpdate)
    requires AppendStep(s, s', key, segmentID, leaves, u)
    ensures key in s.forest.segments && key in s'.forest.segments
    ensures |s'.forest.segments[key]| == |s.forest.segments[key]| + 1
    ensures forall k :: k in s.forest.segments ==>
      k in s'.forest.segments && |s'.forest.segments[k]| >= |s.forest.segments[k]|
  {
    hide Reports, Persist, Merkle.Root, NodesBelow;
  }

  lemma {:induction false} ShardsKeep(run: seq<System>, i: nat, j: nat, key: ShardKey)
    requires IsRun(run) && i <= j < |run| && key in run[i].forest.segments
    ensures key in run[j].forest.segments && |run[j].forest.segments[key]| >= |run[i].forest.segments[key]|
    decreases j
  {
    hide Init, AppendStep;
    if i < j {
      ShardsKeep(run, i, j - 1, key);
      var k, segmentID, leaves, u :| AppendStep(run[j - 1], run[j - 1 + 1], k, segmentID, leaves, u);
      ShardGrows(run[j - 1], run[j], k, segmentID, leaves, u);
    }
  }

  // ---- Any order ----

  /** What is handed to the persistence writer for one append. */
  datatype Update = Update(key: ShardKey, segmentID: int, leaves: seq<Digest>, report: HMFUpdate)

  /** The updates of a run, in the order the appends were made. */
  ghost predicate Made(run: seq<System>, updates: seq<Update>) {
    && IsRun(run) && |run| == |updates| + 1
    && forall k :: 0 <= k < |updates| ==>
         AppendStep(run[k], run[k + 1], updates[k].key, updates[k].segmentID, updates[k].leaves, updates[k].report)
  }

  function PersistOne(storage: Storage, e: Update): Storage {
    Persist(storage, e.key, e.segmentID, NodesBelow(e.leaves, Height(|e.leaves|) + 1), |e.leaves|, e.report)
  }

  /** Persists updates in the given order. */
  function PersistAll(storage: Storage, updates: seq<Update>, order: seq<nat>): Storage
    requires forall i :: 0 <= i < |order| ==> order[i] < |updates|
  {
    if order == [] then storage
      else PersistOne(PersistAll(storage, updates, order[..|order| - 1]), updates[order[|order| - 1]])
  }

  function StoredRoot(storage: Storage, size: nat): Option<Digest> {
    if P.GLOBAL_TREE in storage.nodes && TopPosition(size) in storage.nodes[P.GLOBAL_TREE]
    then Some(storage.nodes[P.GLOBAL_TREE][TopPosition(size)]) else None
  }

  /** Whatever the order in which the updates of a run are persisted, the stored Global root is that of the last forest
      exactly if the update of the last append is persisted last, or the hash collides. */
  lemma RootIsCurrentIffLast(run: seq<System>, updates: seq<Update>, order: seq<nat>)
    requires Made(run, updates) && order != [] && forall i :: 0 <= i < |order| ==> order[i] < |updates|
    ensures var last, n := order[|order| - 1], |updates|;
      && last < n && Inv(run[last + 1]) && Inv(run[n])
      && var global := GlobalLeaves(run[n].forest);
         global != []
         && ((StoredRoot(PersistAll(run[0].storage, updates, order), |global|) == Some(Merkle.Root(global)) <==>
              last == n - 1)
             || RootsCollide(run[last + 1], run[n]))
  {
    hide Init, Next, Faithful, Complete, Persist, WellFormed, Backed, AppendStep, GlobalLeaves, Merkle.Root,
      TopPosition, RootsCollide;
    var last, n := order[|order| - 1], |updates|;

    RunsHold(run, last);
    RunsHold(run, last + 1);
    RunsHold(run, n);
    var e := updates[last];
    var before := PersistAll(run[0].storage, updates, order[..|order| - 1]);
    PersistedRoot(run[last], run[last + 1], e.key, e.segmentID, e.leaves, e.report, before,
                  NodesBelow(e.leaves, Height(|e.leaves|) + 1));
    if last < n - 1 { LaterRootDiffers(run, last + 1, n); }
  }

  /** The Global root a faithful storage holds. */
  lemma StoredRootIs(f: Forest, c: Contents, storage: Storage)
    requires Stored(f, c) && Faithful(f, c, storage) && P.GLOBAL_TREE in storage.nodes
    requires GlobalLeaves(f) != [] && TopPosition(|GlobalLeaves(f)|) in storage.nodes[P.GLOBAL_TREE]
    ensures storage.nodes[P.GLOBAL_TREE][TopPosition(|GlobalLeaves(f)|)] == Merkle.Root(GlobalLeaves(f))
  {
    hide WellFormed, Backed, GlobalLeaves, Row, Height;
    GlobalLeavesIs(f, c);
    assert NodesTrue(f, c, P.GLOBAL_TREE, storage.nodes[P.GLOBAL_TREE]);
  }

  lemma SameRoot(f: Forest, f': Forest)
    requires WellFormed(f) && WellFormed(f') && |GlobalLeaves(f)| == |GlobalLeaves(f')| > 0
    requires Merkle.Root(GlobalLeaves(f)) == Merkle.Root(GlobalLeaves(f'))
    ensures ForestRoot(f) == ForestRoot(f')
  {
    hide WellFormed, GlobalLeaves, Merkle.Root;
    ForestRootIs(f, GlobalLeaves(f));
    ForestRootIs(f', GlobalLeaves(f'));
  }

  lemma {:induction false} SameSize(run: seq<System>, i: nat, j: nat)
    requires IsRun(run) && i <= j < |run|
    ensures run[j].forest.regionIDs == run[i].forest.regionIDs && run[j].forest.numShards == run[i].forest.numShards
    decreases j
  {
    hide Init, AppendStep;
    if i < j {
      SameSize(run, i, j - 1);
      var key, segmentID, leaves, u :| AppendStep(run[j - 1], run[j - 1 + 1], key, segmentID, leaves, u);
      SameRegions(run[j - 1], run[j], key, segmentID, leaves, u);
    }
  }
}
