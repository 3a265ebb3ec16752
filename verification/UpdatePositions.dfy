/** What persisting updates in some order leaves at each position of the Region trees and the Global tree. */
module UpdatePositions {
  import opened Hashing
  import opened Merkle
  import opened NodeStore
  import opened FixedTrees
  import opened PersistedNodes
  import opened Forests
  import opened HierarchicalForest
  import opened ForestTrees
  import opened ForestsDiffer
  import opened ProofBuilding
  import opened StoredForest
  import opened Persistence
  import opened UpdateOrder

  // ---- The trees that workers of several shards rewrite ----

  /** A Region tree or the Global tree. */
  predicate IsUpper(t: P.TreeRef) {
    t == P.GLOBAL_TREE || t == P.RegionTree(t.regionID)
  }

  /** The update changes a leaf of the tree. */
  predicate Touches(e: Update, t: P.TreeRef) {
    t == P.GLOBAL_TREE || t == P.RegionTree(e.key.regionID)
  }

  function NodesFor(e: Update, t: P.TreeRef): seq<MerkleNode> {
    if t == P.GLOBAL_TREE then e.report.global.nodes else e.report.region.nodes
  }

  /** The update's nodes include the position. */
  predicate Writes(e: Update, t: P.TreeRef, p: Position) {
    Touches(e, t) && Emitted(NodesFor(e, t), p)
  }

  /** The leaf of the tree that the update changes. */
  function ChangedLeaf(e: Update, t: P.TreeRef): int {
    if t == P.GLOBAL_TREE then e.report.global.leafIndex else e.key.shardID
  }

  /** The position is above the leaf that the update changes. */
  predicate Changes(e: Update, t: P.TreeRef, p: Position) {
    Touches(e, t) && p.level >= 0 && Ancestor(ChangedLeaf(e, t), p.level) == p.index
  }

  /** The update that wrote the position last. */
  function LastWriter(updates: seq<Update>, order: seq<nat>, t: P.TreeRef, p: Position): Option<nat>
    requires forall i :: 0 <= i < |order| ==> order[i] < |updates|
  {
    if order == [] then None
    else
      var last := order[|order| - 1];
      if Writes(updates[last], t, p) then Some(last) else LastWriter(updates, order[..|order| - 1], t, p)
  }

  lemma {:induction false} WriterListed(updates: seq<Update>, order: seq<nat>, t: P.TreeRef, p: Position)
    requires forall i :: 0 <= i < |order| ==> order[i] < |updates|
    ensures var w := LastWriter(updates, order, t, p); w.Some? ==> w.value in order && Writes(updates[w.value], t, p)
    ensures LastWriter(updates, order, t, p).None? ==> forall i :: 0 <= i < |order| ==> !Writes(updates[order[i]], t, p)
    decreases |order|
  {
    if order != [] {
      var rest := order[..|order| - 1];
      WriterListed(updates, rest, t, p);
      assert forall i :: 0 <= i < |rest| ==> order[i] == rest[i];
    }
  }

  // ---- One update ----

  /** The leaves of the tree after k appends. */
  ghost function LeavesAt(run: seq<System>, k: nat, t: P.TreeRef): seq<Digest>
    requires k < |run| && Inv(run[k]) && HasTree(run[k].forest, t)
  {
    LeavesOf(run[k].forest, run[k].contents, t)
  }

  /** The facts about the k-th append that matter for a tree above the shards. */
  ghost predicate Rewritten(before: seq<Digest>, after: seq<Digest>, e: Update, t: P.TreeRef) {
    && |before| == |after|
    && if Touches(e, t) then
         && 0 <= ChangedLeaf(e, t) < |after| && after == before[ChangedLeaf(e, t) := after[ChangedLeaf(e, t)]]
         && NodesFor(e, t) == PathUpdates(after, ChangedLeaf(e, t))
       else after == before
  }

  lemma StepRewrites(run: seq<System>, updates: seq<Update>, k: nat, t: P.TreeRef)
    requires Made(run, updates) && k < |updates| && IsUpper(t)
    requires Inv(run[k]) && Inv(run[k + 1]) && HasTree(run[k].forest, t)
    ensures HasTree(run[k + 1].forest, t) && Rewritten(LeavesAt(run, k, t), LeavesAt(run, k + 1, t), updates[k], t)
  {
    hide WellFormed, Backed, Faithful, Complete, Appended, PathUpdates, GlobalLeaves, RegionLeaves, ShardLeaves,
      RegionCommitment, ShardCommitment, RegionIndex, Init, ForestRoot, Root, NodesBelow, Height, Persist, LeavesOf,
      HasTree, IsRun;
    var e, s, s' := updates[k], run[k], run[k + 1];
    AppendReport(s.forest, s'.forest, e.key, SealedSegment(e.segmentID, |e.leaves|, Root(e.leaves)), e.report);
    if t == P.GLOBAL_TREE {
      GlobalLeavesIs(s.forest, s.contents);
      GlobalLeavesIs(s'.forest, s'.contents);
    } else {
      RegionIs(s.forest, t);
      RegionLeavesIs(s.forest, s.contents, t.regionID);
      RegionLeavesIs(s'.forest, s'.contents, t.regionID);
    }
  }

  lemma RegionIs(f: Forest, t: P.TreeRef)
    requires HasTree(f, t) && t == P.RegionTree(t.regionID)
    ensures t.regionID in f.regionIDs
  {}

  /** Persisting one update replays its nodes over the stored ones, or leaves the tree's store alone. */
  lemma PersistedStore(storage: Storage, e: Update, t: P.TreeRef)
    requires IsUpper(t)
    ensures StoreOf(PersistOne(storage, e), t) == if Touches(e, t) then Replay(StoreOf(storage, t), NodesFor(e, t))
      else StoreOf(storage, t)
    ensures t in PersistOne(storage, e).nodes <==> t in storage.nodes || Touches(e, t)
  {
    hide Replay, NodesBelow;
  }

  // ---- The stored value is that of the last writer ----

  /** Along a run every state holds, and the trees above the shards are there from the start. */
  lemma UpperThere(run: seq<System>, k: nat, t: P.TreeRef)
    requires IsRun(run) && k < |run| && IsUpper(t) && HasTree(run[0].forest, t)
    ensures Inv(run[k]) && HasTree(run[k].forest, t)
  {
    hide Init, Next, Faithful, Complete, WellFormed, Backed;
    RunsHold(run, k);
    SameSize(run, 0, k);
  }

  /** A position of the tree is stored exactly if some update persisted it, with the value it had after the append of
      the update that persisted it last. */
  lemma {:induction false} StoredValue(run: seq<System>, updates: seq<Update>, order: seq<nat>, t: P.TreeRef,
                                       p: Position)
    requires Made(run, updates) && IsUpper(t) && HasTree(run[0].forest, t)
    requires forall i :: 0 <= i < |order| ==> order[i] < |updates|
    ensures var store, w := StoreOf(PersistAll(run[0].storage, updates, order), t), LastWriter(updates, order, t, p);
      && (p in store <==> w.Some?)
      && (w.Some? ==> w.value < |updates| && StoredFrom(run, w.value, t, p, store))
    decreases |order|
  {
    hide Inv, PersistOne, Rewritten, StoredFrom, Writes, HasTree, IsUpper;
    if order == [] {
      NothingStored(run, t);
    } else {
      var rest, last := order[..|order| - 1], order[|order| - 1];
      assert forall i :: 0 <= i < |rest| ==> rest[i] == order[i];
      StoredValue(run, updates, rest, t, p);
      WriterListed(updates, rest, t, p);
      var storage := PersistAll(run[0].storage, updates, rest);
      OneMore(run, updates, storage, last, t, p);
      var before, w := StoreOf(storage, t), LastWriter(updates, rest, t, p);
      if !Writes(updates[last], t, p) && w.Some? {
        StoredStill(run, w.value, t, p, before, StoreOf(PersistOne(storage, updates[last]), t));
      }
    }
  }

  lemma StoredStill(run: seq<System>, i: nat, t: P.TreeRef, p: Position, before: Store, after: Store)
    requires StoredFrom(run, i, t, p, before) && p in before && p in after && after[p] == before[p]
    ensures StoredFrom(run, i, t, p, after)
  {
    hide Inv, HasTree, LeavesOf, InTree, NodeAt;
  }

  ghost predicate StoredFrom(run: seq<System>, i: nat, t: P.TreeRef, p: Position, store: Store) {
    && i + 1 < |run| && Inv(run[i + 1]) && HasTree(run[i + 1].forest, t)
    && var leaves := LeavesAt(run, i + 1, t); InTree(|leaves|, p) && p in store && store[p] == NodeAt(leaves, p)
  }

  lemma NothingStored(run: seq<System>, t: P.TreeRef)
    requires IsRun(run)
    ensures StoreOf(run[0].storage, t) == map[]
  {
    hide Next;
    var regionIDs: seq<Text>, numShards: nat :| StartsAs(run[0], regionIDs, numShards);
    assert |run[0].storage.nodes| == 0;
  }

  lemma OneMore(run: seq<System>, updates: seq<Update>, storage: Storage, last: nat, t: P.TreeRef, p: Position)
    requires Made(run, updates) && IsUpper(t) && HasTree(run[0].forest, t) && last < |updates|
    ensures var before, after := StoreOf(storage, t), StoreOf(PersistOne(storage, updates[last]), t);
      && (Writes(updates[last], t, p) ==> p in after && StoredFrom(run, last, t, p, after))
      && (!Writes(updates[last], t, p) ==> (p in after <==> p in before) && (p in before ==> after[p] == before[p]))
      && (p in before ==> p in after)
  {
    hide Inv, PersistOne, HasTree, LeavesOf, Replay, PathUpdates, Emitted, AllNodes, IsUpper, InTree, NodeAt;
    UpperThere(run, last, t);
    UpperThere(run, last + 1, t);
    StepRewrites(run, updates, last, t);
    PersistedStore(storage, updates[last], t);
    var e := updates[last];
    if Touches(e, t) {
      var leaves := LeavesAt(run, last + 1, t);
      PathUpdatesAre(leaves, ChangedLeaf(e, t));
      ReplayNodes(StoreOf(storage, t), leaves, NodesFor(e, t));
    }
  }

  // ---- When the last writer's value is the current one ----

  /** No update made after the i-th changes the position. */
  predicate NoLaterChange(updates: seq<Update>, i: nat, t: P.TreeRef, p: Position) {
    forall k :: i < k < |updates| ==> !Changes(updates[k], t, p)
  }

  lemma SameNodeAfter(before: seq<Digest>, after: seq<Digest>, e: Update, t: P.TreeRef, p: Position)
    requires Rewritten(before, after, e, t) && InTree(|before|, p) && !Changes(e, t, p)
    ensures |after| == |before| && NodeAt(after, p) == NodeAt(before, p)
  {
    hide Row, Height, Width, PathUpdates, Ancestor;
    if Touches(e, t) { PathOnly(before, after, ChangedLeaf(e, t), p.level); }
  }

  /** Appends that do not change a position leave its node as it was. */
  lemma {:induction false} NodeKept(run: seq<System>, updates: seq<Update>, i: nat, j: nat, t: P.TreeRef, p: Position)
    requires Made(run, updates) && IsUpper(t) && HasTree(run[0].forest, t) && i <= j < |run|
    requires forall k :: i <= k < j ==> !Changes(updates[k], t, p)
    ensures UpperAt(run, i, t) && UpperAt(run, j, t) && |LeavesAt(run, j, t)| == |LeavesAt(run, i, t)|
    ensures InTree(|LeavesAt(run, i, t)|, p) ==> NodeAt(LeavesAt(run, j, t), p) == NodeAt(LeavesAt(run, i, t), p)
    decreases j
  {
    hide Inv, HasTree, LeavesOf, InTree, NodeAt, IsUpper, Changes, Rewritten, IsRun;
    UpperThere(run, i, t);
    UpperThere(run, j, t);
    if i < j {
      NodeKept(run, updates, i, j - 1, t, p);
      StepRewrites(run, updates, j - 1, t);
      SameSizeAfter(LeavesAt(run, j - 1, t), LeavesAt(run, j, t), updates[j - 1], t);
      if InTree(|LeavesAt(run, i, t)|, p) {
        SameNodeAfter(LeavesAt(run, j - 1, t), LeavesAt(run, j, t), updates[j - 1], t, p);
      }
    }
  }

  ghost predicate UpperAt(run: seq<System>, k: nat, t: P.TreeRef) {
    k < |run| && Inv(run[k]) && HasTree(run[k].forest, t)
  }

  lemma SameSizeAfter(before: seq<Digest>, after: seq<Digest>, e: Update, t: P.TreeRef)
    requires Rewritten(before, after, e, t)
    ensures |after| == |before|
  {
    hide PathUpdates;
  }

  lemma SizesSame(run: seq<System>, updates: seq<Update>, i: nat, j: nat, t: P.TreeRef)
    requires Made(run, updates) && IsUpper(t) && HasTree(run[0].forest, t) && i <= j < |run|
    ensures UpperAt(run, i, t) && UpperAt(run, j, t) && |LeavesAt(run, j, t)| == |LeavesAt(run, i, t)|
  {
    hide WellFormed, Backed, Faithful, Complete, HasTree, LeavesOf, IsRun, AppendStep;
    UpperThere(run, i, t);
    UpperThere(run, j, t);
    SameSize(run, i, j);
    UpperSize(run[i].forest, run[i].contents, t);
    UpperSize(run[j].forest, run[j].contents, t);
  }

  lemma UpperSize(f: Forest, c: Contents, t: P.TreeRef)
    requires Stored(f, c) && HasTree(f, t) && IsUpper(t)
    ensures |LeavesOf(f, c, t)| == if t == P.GLOBAL_TREE then |f.regionIDs| else f.numShards
  {
    hide WellFormed, Backed, LeavesOf;
    if t == P.GLOBAL_TREE { GlobalSize(f, c); } else { RegionSize(f, c, t.regionID); }
  }

  /** If an append between two states changes a position, its node differs in the two states, or the hash collides. */
  lemma NodeDiffers(run: seq<System>, updates: seq<Update>, i: nat, k: nat, j: nat, t: P.TreeRef, p: Position)
    requires Made(run, updates) && IsUpper(t) && HasTree(run[0].forest, t) && i <= k < j < |run|
      && Changes(updates[k], t, p)
    requires UpperAt(run, i, t) && UpperAt(run, j, t) && |LeavesAt(run, j, t)| == |LeavesAt(run, i, t)|
    requires InTree(|LeavesAt(run, i, t)|, p) && NodeAt(LeavesAt(run, i, t), p) == NodeAt(LeavesAt(run, j, t), p)
    ensures RootsCollide(run[i], run[j])
  {
    hide Faithful, Complete, WellFormed, Backed, LeavesOf, HasTree, IsUpper, Rewritten, IsRun, RootsCollide, Collide,
      Width, Row, Height, Ancestor, TreePreimages, ForestPreimages;
    UpperThere(run, k, t);
    UpperThere(run, k + 1, t);
    StepRewrites(run, updates, k, t);
    SizesSame(run, updates, i, k + 1, t);
    var e := updates[k];
    LeafInRange(LeavesAt(run, k, t), LeavesAt(run, k + 1, t), e, t);
    var a, b, leaf := LeavesAt(run, i, t), LeavesAt(run, j, t), ChangedLeaf(e, t);
    SameNodeSameLeaf(a, b, p.level, leaf);
    if a[leaf] == b[leaf] {
      LeafDiffers(run, updates, i, k, j, t);
    } else {
      TreeHashed(run[i].forest, run[i].contents, t);
      TreeHashed(run[j].forest, run[j].contents, t);
      StatesCollide(run[i], run[j], TreePreimages(a), TreePreimages(b));
    }
  }

  lemma LeafInRange(before: seq<Digest>, after: seq<Digest>, e: Update, t: P.TreeRef)
    requires Rewritten(before, after, e, t) && Touches(e, t)
    ensures 0 <= ChangedLeaf(e, t) < |after|
  {
    hide PathUpdates;
  }

  lemma StatesCollide(s: System, s': System, a: set<Preimage>, b: set<Preimage>)
    requires Stored(s.forest, s.contents) && Stored(s'.forest, s'.contents) && Collide(a, b)
    requires Within(a, ForestPreimages(s.forest, s.contents)) && Within(b, ForestPreimages(s'.forest, s'.contents))
    ensures RootsCollide(s, s')
  {
    hide Stored, ForestPreimages, Collide, Within;
    CollideWithin(a, b, ForestPreimages(s.forest, s.contents), ForestPreimages(s'.forest, s'.contents));
  }

  /** The leaf that an append changes differs before it and at any later state, or the hash collides. */
  lemma LeafDiffers(run: seq<System>, updates: seq<Update>, i: nat, k: nat, j: nat, t: P.TreeRef)
    requires Made(run, updates) && IsUpper(t) && HasTree(run[0].forest, t) && i <= k < j < |run|
      && Touches(updates[k], t)
    requires UpperAt(run, i, t) && UpperAt(run, j, t)
    requires var leaf := ChangedLeaf(updates[k], t);
      0 <= leaf < |LeavesAt(run, i, t)| && leaf < |LeavesAt(run, j, t)|
      && LeavesAt(run, i, t)[leaf] == LeavesAt(run, j, t)[leaf]
    ensures RootsCollide(run[i], run[j])
  {
    hide Faithful, Complete, WellFormed, Backed, LeavesOf, HasTree, Init, Next, AppendStep, ForestPreimages, Collide,
      RootsCollide, RegionLeaves, GlobalLeaves, RegionIndex;
    var s, s', e := run[i], run[j], updates[k];
    ChangedKey(run, updates, k);
    SameSize(run, i, j);
    SameSize(run, i, k);
    KeyThere(run[k], s, e.key);
    KeyThere(run[k], s', e.key);
    ShardGrows(run[k], run[k + 1], e.key, e.segmentID, e.leaves, e.report);
    ShardsKeep(run, i, k, e.key);
    ShardsKeep(run, k + 1, j, e.key);
    if t == P.GLOBAL_TREE {
      GlobalLeavesIs(s.forest, s.contents);
      GlobalLeavesIs(s'.forest, s'.contents);
      SameGlobalLeaf(s, s', e.key);
    } else {
      RegionLeavesIs(s.forest, s.contents, e.key.regionID);
      RegionLeavesIs(s'.forest, s'.contents, e.key.regionID);
      SameRegionLeaf(s, s', e.key);
    }
  }

  lemma ChangedKey(run: seq<System>, updates: seq<Update>, k: nat)
    requires Made(run, updates) && k < |updates|
    ensures Inv(run[k]) && var key, f := updates[k].key, run[k].forest;
      && key in f.segments && HasShard(f, key)
      && updates[k].report.global.leafIndex == RegionIndex(f.regionIDs, key.regionID)
  {
    hide Inv, IsRun, AppendStep, HasShard, RegionIndex;
    RunsHold(run, k);
    var e := updates[k];
    StepKey(run[k], run[k + 1], e.key, e.segmentID, e.leaves, e.report);
  }

  lemma StepKey(s: System, s': System, key: ShardKey, segmentID: int, leaves: seq<Digest>, u: HMFUpdate)
    requires Inv(s) && AppendStep(s, s', key, segmentID, leaves, u)
    ensures key in s.forest.segments && HasShard(s.forest, key)
    ensures u.global.leafIndex == RegionIndex(s.forest.regionIDs, key.regionID)
  {
    hide Backed, Faithful, Complete, Persist, Root, NodesBelow, ShardReport, RegionReport, RegionIndex, PathUpdates,
      ForestRoot, GlobalLeaves, ShardLeaves, RegionLeaves, Height, ShardCommitment, RegionCommitment, ShardChanged,
      RegionChanged, GlobalChanged;
    AppendReport(s.forest, s'.forest, key, SealedSegment(segmentID, |leaves|, Root(leaves)), u);
  }

  /** States of one run have the same shards. */
  lemma KeyThere(s: System, s': System, key: ShardKey)
    requires Inv(s) && Inv(s') && HasShard(s.forest, key)
    requires s'.forest.regionIDs == s.forest.regionIDs && s'.forest.numShards == s.forest.numShards
    ensures key in s'.forest.segments && HasShard(s'.forest, key)
  {
    hide Faithful, Complete, Backed;
  }

  /** The same Region leaf in two states commits to as many segments, or the hash collides. */
  lemma SameRegionLeaf(s: System, s': System, key: ShardKey)
    requires Stored(s.forest, s.contents) && Stored(s'.forest, s'.contents)
    requires key in s.forest.segments && HasShard(s.forest, key) && key in s'.forest.segments
      && HasShard(s'.forest, key)
    requires RegionLeaves(s.forest, key.regionID)[key.shardID] == RegionLeaves(s'.forest, key.regionID)[key.shardID]
    ensures |s.forest.segments[key]| == |s'.forest.segments[key]| || RootsCollide(s, s')
  {
    hide WellFormed, Backed, ForestPreimages, Collide, RegionLeaves, ShardLeaves, LeavesOf, HasTree;
    var region, shard := P.RegionTree(key.regionID), P.ShardTree(key.regionID, key.shardID);
    RegionLeavesIs(s.forest, s.contents, key.regionID);
    RegionLeavesIs(s'.forest, s'.contents, key.regionID);
    if !RootsCollide(s, s') {
      SameBelow(s.forest, s.contents, s'.forest, s'.contents, region, key.shardID, shard);
      ShardLeavesIs(s.forest, s.contents, key);
      ShardLeavesIs(s'.forest, s'.contents, key);
    }
  }

  lemma SameGlobalLeaf(s: System, s': System, key: ShardKey)
    requires Stored(s.forest, s.contents) && Stored(s'.forest, s'.contents) && s'.forest.regionIDs == s.forest.regionIDs
    requires key in s.forest.segments && HasShard(s.forest, key) && key in s'.forest.segments
      && HasShard(s'.forest, key)
    requires var i := RegionIndex(s.forest.regionIDs, key.regionID);
      GlobalLeaves(s.forest)[i] == GlobalLeaves(s'.forest)[i]
    ensures |s.forest.segments[key]| == |s'.forest.segments[key]| || RootsCollide(s, s')
  {
    hide WellFormed, Backed, ForestPreimages, Collide, RegionLeaves, GlobalLeaves, ShardLeaves, LeavesOf, HasTree,
      RegionIndex;
    var region, i := P.RegionTree(key.regionID), RegionIndex(s.forest.regionIDs, key.regionID);
    GlobalLeavesIs(s.forest, s.contents);
    GlobalLeavesIs(s'.forest, s'.contents);
    if !RootsCollide(s, s') {
      SameBelow(s.forest, s.contents, s'.forest, s'.contents, P.GLOBAL_TREE, i, region);
      RegionLeavesIs(s.forest, s.contents, key.regionID);
      RegionLeavesIs(s'.forest, s'.contents, key.regionID);
      SameRegionLeaf(s, s', key);
    }
  }

  /** The value that the i-th update wrote at a position of a tree is the current one exactly if no later append changes
      the position, or the hash collides. */
  lemma CurrentIffUnchanged(run: seq<System>, updates: seq<Update>, i: nat, t: P.TreeRef, p: Position)
    requires Made(run, updates) && IsUpper(t) && HasTree(run[0].forest, t) && i < |updates|
    ensures UpperAt(run, i + 1, t) && UpperAt(run, |updates|, t)
    ensures |LeavesAt(run, i + 1, t)| == |LeavesAt(run, |updates|, t)|
    ensures InTree(|LeavesAt(run, i + 1, t)|, p) ==>
      (NodeAt(LeavesAt(run, i + 1, t), p) == NodeAt(LeavesAt(run, |updates|, t), p) <==>
       NoLaterChange(updates, i, t, p))
      || RootsCollide(run[i + 1], run[|updates|])
  {
    hide Inv, HasTree, LeavesOf, IsUpper, InTree, NodeAt, RootsCollide, Changes, IsRun;
    SizesSame(run, updates, i + 1, |updates|, t);
    if InTree(|LeavesAt(run, i + 1, t)|, p) {
      if NoLaterChange(updates, i, t, p) {
        NodeKept(run, updates, i + 1, |updates|, t, p);
      } else if NodeAt(LeavesAt(run, i + 1, t), p) == NodeAt(LeavesAt(run, |updates|, t), p) {
        var k :| i < k < |updates| && Changes(updates[k], t, p);
        NodeDiffers(run, updates, i + 1, k, |updates|, t, p);
      }
    }
  }
}
