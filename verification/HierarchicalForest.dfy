/** The in-memory forest (internal/hmf/hmf.go): one Global tree, a Region tree per region and
    a Shard tree per shard, all rewritten when a sealed segment is appended. */
module HierarchicalForest {
  import opened Hashing
  import opened Merkle
  import opened NodeStore
  import opened ShardTrees
  import opened FixedTrees
  import opened Forests

  /** What one tree reports when a sealed segment is appended: the nodes it emits, its
      committed root, size, height and (for a Shard tree) frontier, and where its changed leaf
      or new root sits. */
  datatype TreeUpdate = TreeUpdate(
    nodes: seq<MerkleNode>, root: Digest, leaves: int, height: int, frontiers: seq<MerkleNode>, leafIndex: int)

  /** The nodes and roots changed by one sealed segment. */
  datatype HMFUpdate = HMFUpdate(shard: TreeUpdate, region: TreeUpdate, global: TreeUpdate)

  /** Region names are present and distinct. */
  method CheckRegions(regionIDs: seq<Text>) returns (ok: bool)
    ensures ok <==> ValidRegions(regionIDs)
  {
    var seen: set<Text> := {};
    for i := 0 to |regionIDs|
      invariant forall j :: 0 <= j < i ==> regionIDs[j] != []
      invariant forall j, k :: 0 <= j < k < i ==> regionIDs[j] != regionIDs[k]
      invariant forall t :: t in seen <==> t in regionIDs[..i]
    {
      if regionIDs[i] == [] || regionIDs[i] in seen { return false; }
      seen := seen + {regionIDs[i]};
    }
    return true;
  }

  /** The Shard tree's report after a segment became its last leaf. */
  ghost predicate ShardReport(f: Forest, key: ShardKey, u: TreeUpdate) {
    && key in f.segments && f.segments[key] != []
    && u.nodes == LastPath(ShardLeaves(f, key), Height(|f.segments[key]|) + 1)
    && u.root == ShardCommitment(f, key) && u.frontiers == Peaks(ShardLeaves(f, key), 0)
    && u.leaves == |f.segments[key]| && u.height == Height(u.leaves) && u.leafIndex == u.leaves - 1
  }

  ghost predicate RegionReport(f: Forest, key: ShardKey, u: TreeUpdate) {
    && WellFormed(f) && key.regionID in f.regionIDs && 0 <= key.shardID < f.numShards
    && u.nodes == PathUpdates(RegionLeaves(f, key.regionID), key.shardID)
    && u.root == RegionCommitment(f, key.regionID)
    && u.leaves == f.numShards && u.height == Height(u.leaves) && u.leafIndex == key.shardID
  }

  ghost predicate GlobalReport(f: Forest, regionID: Text, u: TreeUpdate) {
    && WellFormed(f) && regionID in f.regionIDs
    && u.nodes == PathUpdates(GlobalLeaves(f), RegionIndex(f.regionIDs, regionID))
    && u.root == ForestRoot(f)
    && u.leaves == |f.regionIDs| && u.height == Height(u.leaves) && u.leafIndex == RegionIndex(f.regionIDs, regionID)
  }

  /** What appending to shard `key` reports, in terms of the forest afterwards. */
  ghost predicate Reports(f: Forest, key: ShardKey, u: HMFUpdate) {
    ShardReport(f, key, u.shard) && RegionReport(f, key, u.region) && GlobalReport(f, key.regionID, u.global)
  }

  /** The reported roots hang together: the new segment is the last leaf of its shard, the shard's root is the reported
      leaf of its region, the region's root the reported leaf of the Global tree, and the Global root the forest's. */
  lemma ReportedRoots(f: Forest, key: ShardKey, s: SealedSegment, u: HMFUpdate)
    requires WellFormed(f) && key in f.segments && s.segmentID >= 0 && s.leafCount > 0
    requires Reports(Appended(f, key, s), key, u)
    ensures var f' := Appended(f, key, s);
      && WellFormed(f') && key.regionID in f'.regionIDs
      && u.shard.leafIndex == |f.segments[key]| && u.shard.leaves == |f.segments[key]| + 1
      && ShardLeaves(f', key)[u.shard.leafIndex] == SegmentCommitment(key, s)
      && 0 <= u.region.leafIndex < |RegionLeaves(f', key.regionID)|
      && RegionLeaves(f', key.regionID)[u.region.leafIndex] == u.shard.root
      && 0 <= u.global.leafIndex < |GlobalLeaves(f')| && f'.regionIDs[u.global.leafIndex] == key.regionID
      && GlobalLeaves(f')[u.global.leafIndex] == u.region.root && u.global.root == ForestRoot(f')
  {
    hide Root, RowNodes, PathUpdates, LastPath, Height, Peaks, RegionIndex, RegionCommitment;
    AppendedWellFormed(f, key, s);
  }

  /** Each reported height is the least at which the reported leaves fit. */
  lemma ReportedHeights(f: Forest, key: ShardKey, u: HMFUpdate, h: nat)
    requires Reports(f, key, u)
    ensures u.shard.leaves <= Pow2(h) <==> u.shard.height <= h
    ensures u.region.leaves <= Pow2(h) <==> u.region.height <= h
    ensures u.global.leaves <= Pow2(h) <==> u.global.height <= h
  {
    hide Root, PathUpdates, LastPath, Peaks, RegionIndex, RegionCommitment, ShardCommitment, ForestRoot, WellFormed,
      GlobalLeaves, RegionLeaves, Pow2, Height;
    HeightIsLeast(u.shard.leaves, h);
    HeightIsLeast(u.region.leaves, h);
    HeightIsLeast(u.global.leaves, h);
  }

  /** The Shard trees hold the shards of a forest. */
  ghost predicate ShardsHold(trees: map<ShardKey, ShardTree>, repr: set<ShardTree>, f: Forest)
    reads repr
  {
    forall k :: k in trees ==>
      trees[k] in repr && k in f.segments && trees[k].Valid() && trees[k].leaves == ShardLeaves(f, k)
  }

  ghost predicate RegionsHold(trees: map<Text, FixedTree>, repr: set<FixedTree>, f: Forest)
    reads repr
    requires WellFormed(f)
  {
    forall r :: r in trees ==>
      trees[r] in repr && r in f.regionIDs && trees[r].Valid() && trees[r].leaves == RegionLeaves(f, r)
  }

  ghost predicate GlobalHolds(tree: FixedTree, f: Forest)
    reads tree
    requires WellFormed(f)
  {
    tree.Valid() && tree.leaves == GlobalLeaves(f)
  }

  class HMF {
    var globalTree: FixedTree
    var regionTrees: map<Text, FixedTree>
    var shardTrees: map<ShardKey, ShardTree>
    var regionIndexes: map<Text, int>
    var shardIndexes: map<ShardKey, int>

    ghost var forest: Forest
    ghost var shardRepr: set<ShardTree>
    ghost var regionRepr: set<FixedTree>

    /** The trees are separate objects: each carries its own identity. */
    ghost predicate Separate()
      reads this
    {
      && globalTree !in regionRepr
      && (forall r :: r in regionTrees ==> regionTrees[r] in regionRepr)
      && (forall k :: k in shardTrees ==> shardTrees[k] in shardRepr)
      && (forall r :: r in regionTrees ==> regionTrees[r].regionID == r)
      && (forall k :: k in shardTrees ==> ShardKey(shardTrees[k].regionID, shardTrees[k].shardID) == k)
    }

    /** The maps hold the trees and indexes of the first `count` regions. */
    ghost predicate Made(count: nat)
      reads this
    {
      WellFormed(forest) && MadeOf(forest, count, regionTrees.Keys, shardTrees.Keys, regionIndexes, shardIndexes)
    }

    ghost predicate Indexed()
      reads this
    {
      Made(|forest.regionIDs|)
    }

    ghost predicate Valid()
      reads this, globalTree, regionRepr, shardRepr
    {
      && Indexed() && Separate() && ShardsHold(shardTrees, shardRepr, forest)
      && RegionsHold(regionTrees, regionRepr, forest) && GlobalHolds(globalTree, forest)
    }

    lemma Formed()
      requires Valid()
      ensures WellFormed(forest)
    {}

    /** A forest without trees, apart from a Global tree of zero digests. */
    constructor Blank(regionIDs: seq<Text>, numShards: nat)
      requires regionIDs != [] && numShards > 0 && ValidRegions(regionIDs)
      ensures Separate() && Made(0) && Unused(forest)
      ensures forest.regionIDs == regionIDs && forest.numShards == numShards
      ensures ShardsHold(shardTrees, shardRepr, forest) && RegionsHold(regionTrees, regionRepr, forest)
      ensures fresh(globalTree) && regionRepr == {} && shardRepr == {}
      ensures globalTree.Valid() && globalTree.size == |regionIDs|
    {
      globalTree := new FixedTree([], |regionIDs|);
      regionTrees, shardTrees, regionIndexes, shardIndexes := map[], map[], map[], map[];
      forest := EmptyForest(regionIDs, numShards);
      shardRepr, regionRepr := {}, {};
      new;
      hide FixedTree.Valid, ShardTree.Valid, EmptyForest, WellFormed, Unused, ShardsHold, RegionsHold, Separate, Made;
      Start(regionIDs, numShards);
      StartsEmpty();
    }

    /** NewHMF: a forest of empty shards. */
    static method New(regionIDs: seq<Text>, numShards: int, maxSegmentLeaves: int) returns (r: Result<HMF>)
      ensures r.Ok? <==> regionIDs != [] && maxSegmentLeaves > 0 && numShards > 0 && ValidRegions(regionIDs)
      ensures r.Ok? ==> fresh(r.value) && r.value.Valid() && Unused(r.value.forest)
      ensures r.Ok? ==> r.value.forest.regionIDs == regionIDs && r.value.forest.numShards == numShards
      ensures r.Ok? ==> fresh(r.value.globalTree) && fresh(r.value.regionRepr) && fresh(r.value.shardRepr)
    {
      if |regionIDs| == 0 || maxSegmentLeaves <= 0 || numShards <= 0 { return Err; }
      var valid := CheckRegions(regionIDs);
      if !valid { return Err; }
      var hmf := new HMF.Blank(regionIDs, numShards);
      hmf.Populate(regionIDs, numShards);
      return Ok(hmf);
    }

    /** Makes all trees and builds them over empty shards. */
    method Populate(regionIDs: seq<Text>, numShards: nat)
      requires Separate() && Made(0) && Unused(forest)
      requires forest.regionIDs == regionIDs && forest.numShards == numShards
      requires ShardsHold(shardTrees, shardRepr, forest) && RegionsHold(regionTrees, regionRepr, forest)
      requires globalTree.Valid() && globalTree.size == |regionIDs|
      modifies this`shardTrees, this`shardIndexes, this`shardRepr, this`regionTrees, this`regionIndexes,
        this`regionRepr, globalTree
      ensures Valid()
      ensures fresh(regionRepr - old(regionRepr)) && fresh(shardRepr - old(shardRepr))
    {
      hide FixedTree.Valid, ShardTree.Valid, RegionLeaves, ShardLeaves, GlobalLeaves, RegionIndex, WellFormed,
        Unused, ShardsHold, RegionsHold, GlobalHolds, Separate, MadeOf;
      for i := 0 to |regionIDs|
        modifies this`shardTrees, this`shardIndexes, this`shardRepr, this`regionTrees, this`regionIndexes,
          this`regionRepr
        invariant Separate() && Made(i)
        invariant ShardsHold(shardTrees, shardRepr, forest) && RegionsHold(regionTrees, regionRepr, forest)
        invariant fresh(regionRepr - old(regionRepr)) && fresh(shardRepr - old(shardRepr))
      {
        MakeRegion(regionIDs[i], i, numShards);
      }
      BuildGlobal(regionIDs);
    }

    lemma StartsEmpty()
      requires WellFormed(forest) && globalTree !in regionRepr
      requires forall r :: r !in regionTrees
      requires forall k :: k !in shardTrees
      ensures Separate() && Made(0)
      ensures ShardsHold(shardTrees, shardRepr, forest) && RegionsHold(regionTrees, regionRepr, forest)
    {}

    method MakeRegion(rid: Text, i: nat, numShards: nat)
      requires WellFormed(forest) && Unused(forest) && numShards == forest.numShards
      requires i < |forest.regionIDs| && rid == forest.regionIDs[i]
      requires Separate() && Made(i)
      requires ShardsHold(shardTrees, shardRepr, forest) && RegionsHold(regionTrees, regionRepr, forest)
      modifies this`shardTrees, this`shardIndexes, this`shardRepr, this`regionTrees, this`regionIndexes, this`regionRepr
      ensures Separate() && Made(i + 1)
      ensures ShardsHold(shardTrees, shardRepr, forest) && RegionsHold(regionTrees, regionRepr, forest)
      ensures fresh(regionRepr - old(regionRepr)) && fresh(shardRepr - old(shardRepr))
    {
      hide RegionLeaves, ShardLeaves, RegionIndex, WellFormed, Unused, MadeOf, Separate,
        Before, RegionsIndexed, ShardsIndexed, ShardsHold, RegionsHold;
      ghost var regions, shards := regionTrees.Keys, shardTrees.Keys;
      BeforeNext(forest, i);
      HasRegions(forest);
      MadeParts(forest, i, regions, shards, regionIndexes, shardIndexes);
      var shardRoots := AddShards(rid, numShards);
      AddRegion(rid, i, shardRoots);
      MadeNext(forest, i, regions, shards, regionTrees.Keys, shardTrees.Keys, regionIndexes, shardIndexes);
    }

    /** Makes the Shard trees of a region and returns their committed roots. */
    method AddShards(rid: Text, numShards: nat) returns (shardRoots: seq<Digest>)
      requires Separate() && WellFormed(forest) && Unused(forest) && rid in forest.regionIDs
      requires numShards == forest.numShards > 0
      requires ShardsHold(shardTrees, shardRepr, forest) && ShardsIndexed(shardTrees.Keys, shardIndexes)
      modifies this`shardTrees, this`shardIndexes, this`shardRepr
      ensures Separate() && ShardsHold(shardTrees, shardRepr, forest) && ShardsIndexed(shardTrees.Keys, shardIndexes)
      ensures forall k :: k in shardTrees <==> k in old(shardTrees) || (k.regionID == rid && 0 <= k.shardID < numShards)
      ensures fresh(shardRepr - old(shardRepr))
      ensures shardRoots != [] && shardRoots == RegionLeaves(forest, rid)
    {
      hide ShardTree.Valid, ShardLeaves, RegionLeaves, WellFormed, RegionIndex;
      shardRoots := [];
      for s := 0 to numShards
        invariant Separate() && ShardsHold(shardTrees, shardRepr, forest)
        invariant ShardsIndexed(shardTrees.Keys, shardIndexes)
        invariant forall k :: k in shardTrees <==> k in old(shardTrees) || (k.regionID == rid && 0 <= k.shardID < s)
        invariant fresh(shardRepr - old(shardRepr))
        invariant |shardRoots| == s && forall k :: 0 <= k < s ==> shardRoots[k] == CommitShardRoot(rid, k, 0, 0)
      {
        AddShard(rid, s);
        shardRoots := shardRoots + [CommitShardRoot(rid, s, 0, 0)];
      }
      EmptyShards(forest, rid, shardRoots);
    }

    method AddShard(rid: Text, s: nat)
      requires Separate() && WellFormed(forest) && Unused(forest) && rid in forest.regionIDs && s < forest.numShards
      requires ShardsHold(shardTrees, shardRepr, forest) && ShardsIndexed(shardTrees.Keys, shardIndexes)
      modifies this`shardTrees, this`shardIndexes, this`shardRepr
      ensures Separate() && ShardsHold(shardTrees, shardRepr, forest) && ShardsIndexed(shardTrees.Keys, shardIndexes)
      ensures forall k :: k in shardTrees <==> k in old(shardTrees) || k == ShardKey(rid, s)
      ensures fresh(shardRepr - old(shardRepr))
    {
      hide ShardTree.Valid, ShardLeaves, WellFormed;
      EmptyShard(forest, rid, s);
      var key := ShardKey(rid, s);
      var tree := new ShardTree(rid, s);
      shardTrees, shardIndexes := shardTrees[key := tree], shardIndexes[key := s];
      shardRepr := shardRepr + {tree};
    }

    method AddRegion(rid: Text, i: nat, shardRoots: seq<Digest>)
      requires Separate() && WellFormed(forest) && rid in forest.regionIDs && i == RegionIndex(forest.regionIDs, rid)
      requires RegionsHold(regionTrees, regionRepr, forest)
      requires RegionsIndexed(forest.regionIDs, regionTrees.Keys, regionIndexes)
      requires shardRoots != [] && shardRoots == RegionLeaves(forest, rid)
      modifies this`regionTrees, this`regionIndexes, this`regionRepr
      ensures Separate() && RegionsHold(regionTrees, regionRepr, forest)
      ensures RegionsIndexed(forest.regionIDs, regionTrees.Keys, regionIndexes)
      ensures forall r :: r in regionTrees <==> r in old(regionTrees) || r == rid
      ensures fresh(regionRepr - old(regionRepr))
    {
      hide FixedTree.Valid, RegionLeaves, RegionIndex, WellFormed;
      var region := NewRegionTree(rid, shardRoots);
      regionTrees, regionIndexes := regionTrees[rid := region], regionIndexes[rid := i];
      regionRepr := regionRepr + {region};
    }

    method NewRegionTree(rid: Text, shardRoots: seq<Digest>) returns (region: FixedTree)
      requires shardRoots != []
      ensures fresh(region) && region.Valid() && region.leaves == shardRoots && region.regionID == rid
    {
      hide FixedTree.Valid;
      region := new FixedTree(rid, |shardRoots|);
      region.Layout();
      var _ := region.Build(shardRoots);
    }

    method BuildGlobal(regionIDs: seq<Text>)
      requires Separate() && Made(|regionIDs|) && regionIDs == forest.regionIDs
      requires RegionsHold(regionTrees, regionRepr, forest)
      requires globalTree.Valid() && globalTree.size == |regionIDs|
      modifies globalTree
      ensures Separate() && RegionsHold(regionTrees, regionRepr, forest) && GlobalHolds(globalTree, forest)
    {
      hide FixedTree.Valid, RegionLeaves, GlobalLeaves, RegionCommitment, RegionIndex, Before, WellFormed;
      BeforeAll(regionIDs);
      globalTree.Layout();
      var regionRoots: seq<Digest> := [];
      for i := 0 to |regionIDs|
        invariant globalTree.Shaped() && globalTree.size == |regionIDs|
        invariant RegionsHold(regionTrees, regionRepr, forest)
        invariant |regionRoots| == i
        invariant forall k :: 0 <= k < i ==> regionRoots[k] == RegionCommitment(forest, regionIDs[k])
      {
        var region := regionTrees[regionIDs[i]];
        region.Counts();
        RegionCommitmentIs(forest, regionIDs[i], region.leaves);
        regionRoots := regionRoots + [CommitRegionRoot(regionIDs[i], region.size, region.root)];
      }
      GlobalLeavesAre(forest, regionRoots);
      var _ := globalTree.Build(regionRoots);
    }

    /** The committed root of the whole forest. */
    method Root() returns (root: Digest)
      requires Valid()
      ensures root == ForestRoot(forest)
    {
      root := CommitGlobalRoot(globalTree.size, globalTree.root);
    }

    method AppendSealedSegment(regionID: Text, shardID: int, segmentID: int, segmentLeafCount: int, segmentRoot: Digest)
      returns (r: Result<HMFUpdate>)
      requires Valid()
      modifies this, globalTree, regionRepr, shardRepr
      ensures Valid()
      ensures globalTree == old(globalTree) && regionRepr == old(regionRepr) && shardRepr == old(shardRepr)
      ensures r.Ok? <==> segmentID >= 0 && segmentLeafCount > 0 && ShardKey(regionID, shardID) in old(forest).segments
      ensures r.Err? ==> forest == old(forest)
      ensures r.Ok? ==>
        var key, s := ShardKey(regionID, shardID), SealedSegment(segmentID, segmentLeafCount, segmentRoot);
        forest == Appended(old(forest), key, s) && Reports(forest, key, r.value)
    {
      hide Appended, WellFormed, MadeOf, Separate, ShardsHold, RegionsHold, GlobalHolds, Reports;
      if segmentID < 0 || segmentLeafCount <= 0 { return Err; }
      var key := ShardKey(regionID, shardID);
      MadeSame(forest, forest, regionTrees.Keys, shardTrees.Keys, regionIndexes, shardIndexes);
      if key !in shardTrees { return Err; }
      var update := Propagate(key, segmentID, segmentLeafCount, segmentRoot);
      return Ok(update);
    }

    /** Appends to the shard and rewrites the path above it in the Region and Global trees. */
    method Propagate(key: ShardKey, segmentID: int, leafCount: int, segmentRoot: Digest) returns (update: HMFUpdate)
      requires Valid() && key in forest.segments && segmentID >= 0 && leafCount > 0
      modifies this`forest, globalTree, regionRepr, shardRepr
      ensures Valid()
      ensures forest == Appended(old(forest), key, SealedSegment(segmentID, leafCount, segmentRoot))
      ensures Reports(forest, key, update)
    {
      hide ShardLeaves, RegionLeaves, GlobalLeaves, ShardCommitment, RegionCommitment, ForestRoot,
        RegionIndex, Height, Appended, WellFormed, ShardChanged, RegionChanged, GlobalChanged,
        MadeOf, ShardsHold, RegionsHold, GlobalHolds, ShardReport, RegionReport, GlobalReport;
      ghost var before, s := forest, SealedSegment(segmentID, leafCount, segmentRoot);
      AppendedChanges(before, key, s);
      MadeSame(before, Appended(before, key, s), regionTrees.Keys, shardTrees.Keys, regionIndexes, shardIndexes);
      forest := Appended(before, key, s);
      var shardPart := AppendToShard(key, segmentID, leafCount, segmentRoot, before);
      var regionPart := UpdateRegion(key, shardPart.root, before);
      var globalPart := UpdateGlobal(key.regionID, regionPart.root, before);
      update := HMFUpdate(shardPart, regionPart, globalPart);
    }

    method AppendToShard(key: ShardKey, segmentID: int, leafCount: int, segmentRoot: Digest, ghost before: Forest)
      returns (part: TreeUpdate)
      requires Indexed() && Separate() && ShardsHold(shardTrees, shardRepr, before) && key in shardTrees
      requires ShardChanged(before, forest, key, SealedSegment(segmentID, leafCount, segmentRoot))
      modifies shardTrees[key]
      ensures Separate() && ShardsHold(shardTrees, shardRepr, forest)
      ensures ShardReport(forest, key, part) && part.root == ShardCommitment(forest, key)
    {
      hide ShardLeaves, Height, WellFormed, ShardTree.Valid, Peaks, LastPath;
      var shardTree := shardTrees[key];
      shardTree.Counts();
      var shardLeafIndex := shardTree.leafCount;
      var segmentCommitment := CommitSegmentRoot(key.regionID, key.shardID, segmentID, leafCount, segmentRoot);
      var nodes := shardTree.Append(segmentCommitment);
      var shardCommitment := CommitShardRoot(key.regionID, key.shardID, shardTree.leafCount, shardTree.root);
      ShardCommitmentIs(forest, key, shardTree.leaves);
      part := TreeUpdate(nodes, shardCommitment, shardTree.leafCount, shardTree.height, shardTree.frontiers,
                         shardLeafIndex);
    }

    method UpdateRegion(key: ShardKey, shardCommitment: Digest, ghost before: Forest) returns (part: TreeUpdate)
      requires Indexed() && Separate() && RegionChanged(before, forest, key)
      requires RegionsHold(regionTrees, regionRepr, before)
      requires shardCommitment == ShardCommitment(forest, key)
      modifies regionTrees[key.regionID]
      ensures Separate() && RegionsHold(regionTrees, regionRepr, forest)
      ensures RegionReport(forest, key, part) && part.root == RegionCommitment(forest, key.regionID)
    {
      hide RegionLeaves, ShardCommitment, Height, WellFormed, FixedTree.Valid, PathUpdates;
      var regionTree := regionTrees[key.regionID];
      var shardIndex := shardIndexes[key];
      regionTree.Counts();
      var result := regionTree.UpdateRoot(shardIndex, shardCommitment);
      var nodes := result.value;  // the index is always in range
      var regionCommitment := CommitRegionRoot(key.regionID, regionTree.size, regionTree.root);
      RegionCommitmentIs(forest, key.regionID, regionTree.leaves);
      part := TreeUpdate(nodes, regionCommitment, regionTree.size, regionTree.height, [], shardIndex);
    }

    method UpdateGlobal(regionID: Text, regionCommitment: Digest, ghost before: Forest) returns (part: TreeUpdate)
      requires Indexed() && Separate() && GlobalChanged(before, forest, regionID) && GlobalHolds(globalTree, before)
      requires regionCommitment == RegionCommitment(forest, regionID)
      modifies globalTree
      ensures Separate() && GlobalHolds(globalTree, forest)
      ensures GlobalReport(forest, regionID, part)
    {
      hide GlobalLeaves, RegionCommitment, Height, WellFormed, FixedTree.Valid, PathUpdates;
      var regionIndex := regionIndexes[regionID];
      globalTree.Counts();
      var result := globalTree.UpdateRoot(regionIndex, regionCommitment);
      var nodes := result.value;  // the index is always in range
      var root := CommitGlobalRoot(globalTree.size, globalTree.root);
      ForestRootIs(forest, globalTree.leaves);
      part := TreeUpdate(nodes, root, globalTree.size, globalTree.height, [], regionIndex);
    }
  }

  lemma ShardCommitmentIs(f: Forest, key: ShardKey, leaves: seq<Digest>)
    requires key in f.segments && leaves == ShardLeaves(f, key)
    ensures ShardCommitment(f, key) == CommitShardRoot(key.regionID, key.shardID, |leaves|, RawRoot(leaves))
  {}

  lemma RegionCommitmentIs(f: Forest, regionID: Text, leaves: seq<Digest>)
    requires WellFormed(f) && regionID in f.regionIDs && leaves == RegionLeaves(f, regionID)
    ensures leaves != [] && RegionCommitment(f, regionID) == CommitRegionRoot(regionID, |leaves|, Merkle.Root(leaves))
  {}

  lemma ForestRootIs(f: Forest, leaves: seq<Digest>)
    requires WellFormed(f) && leaves == GlobalLeaves(f)
    ensures leaves != [] && ForestRoot(f) == CommitGlobalRoot(|leaves|, Merkle.Root(leaves))
  {}

  /** The region is among the first `count` ones. */
  predicate Before(regionIDs: seq<Text>, r: Text, count: nat) {
    r in regionIDs && RegionIndex(regionIDs, r) < count
  }

  /** The keys and indexes of the first `count` regions. */
  ghost predicate MadeOf(f: Forest, count: nat, regions: set<Text>, shards: set<ShardKey>,
                         regionIndexes: map<Text, int>, shardIndexes: map<ShardKey, int>) {
    && (forall r :: r in regions <==> Before(f.regionIDs, r, count))
    && (forall k :: k in shards <==> Before(f.regionIDs, k.regionID, count) && 0 <= k.shardID < f.numShards)
    && RegionsIndexed(f.regionIDs, regions, regionIndexes)
    && ShardsIndexed(shards, shardIndexes)
  }

  lemma MadeParts(f: Forest, count: nat, regions: set<Text>, shards: set<ShardKey>, regionIndexes: map<Text, int>,
                  shardIndexes: map<ShardKey, int>)
    requires MadeOf(f, count, regions, shards, regionIndexes, shardIndexes)
    ensures RegionsIndexed(f.regionIDs, regions, regionIndexes) && ShardsIndexed(shards, shardIndexes)
    ensures MadeKeys(f, count, regions, shards)
  {
    hide Before, RegionsIndexed, ShardsIndexed;
  }

  ghost predicate MadeKeys(f: Forest, count: nat, regions: set<Text>, shards: set<ShardKey>) {
    && (forall r :: r in regions <==> Before(f.regionIDs, r, count))
    && (forall k :: k in shards <==> Before(f.regionIDs, k.regionID, count) && 0 <= k.shardID < f.numShards)
  }

  /** One region more, with all its shards. */
  lemma MadeNext(f: Forest, i: nat, regions: set<Text>, shards: set<ShardKey>, regions': set<Text>,
                 shards': set<ShardKey>, regionIndexes: map<Text, int>, shardIndexes: map<ShardKey, int>)
    requires WellFormed(f) && i < |f.regionIDs| && MadeKeys(f, i, regions, shards)
    requires forall r :: r in regions' <==> r in regions || r == f.regionIDs[i]
    requires forall k :: k in shards' <==> k in shards || (k.regionID == f.regionIDs[i] && 0 <= k.shardID < f.numShards)
    requires RegionsIndexed(f.regionIDs, regions', regionIndexes) && ShardsIndexed(shards', shardIndexes)
    ensures MadeOf(f, i + 1, regions', shards', regionIndexes, shardIndexes)
  {
    hide WellFormed, Before, RegionsIndexed, ShardsIndexed, RegionIndex;
    BeforeNext(f, i);
    forall r ensures r in regions' <==> Before(f.regionIDs, r, i + 1) {
      assert r in regions <==> Before(f.regionIDs, r, i);
    }
    forall k ensures k in shards' <==> Before(f.regionIDs, k.regionID, i + 1) && 0 <= k.shardID < f.numShards {
      assert k in shards <==> Before(f.regionIDs, k.regionID, i) && 0 <= k.shardID < f.numShards;
      assert Before(f.regionIDs, k.regionID, i + 1) <==>
        Before(f.regionIDs, k.regionID, i) || k.regionID == f.regionIDs[i];
    }
  }

  lemma MadeSame(f: Forest, f': Forest, regions: set<Text>, shards: set<ShardKey>, regionIndexes: map<Text, int>,
                 shardIndexes: map<ShardKey, int>)
    requires WellFormed(f) && MadeOf(f, |f.regionIDs|, regions, shards, regionIndexes, shardIndexes)
    requires f'.regionIDs == f.regionIDs && f'.numShards == f.numShards
    ensures MadeOf(f', |f'.regionIDs|, regions, shards, regionIndexes, shardIndexes)
    ensures shards == f.segments.Keys
  {
    AllShards(f);
  }

  ghost predicate RegionsIndexed(regionIDs: seq<Text>, regions: set<Text>, indexes: map<Text, int>) {
    forall r :: r in regions ==> r in regionIDs && r in indexes && indexes[r] == RegionIndex(regionIDs, r)
  }

  ghost predicate ShardsIndexed(keys: set<ShardKey>, indexes: map<ShardKey, int>) {
    forall k :: k in keys ==> k in indexes && indexes[k] == k.shardID
  }

  /** No segment has been appended. */
  ghost predicate Unused(f: Forest) {
    forall k :: k in f.segments ==> f.segments[k] == []
  }

  lemma Start(regionIDs: seq<Text>, numShards: nat)
    requires regionIDs != [] && numShards > 0 && ValidRegions(regionIDs)
    ensures var f := EmptyForest(regionIDs, numShards);
      WellFormed(f) && Unused(f) && f.regionIDs == regionIDs && f.numShards == numShards
  {
    EmptyWellFormed(regionIDs, numShards);
  }

  lemma BeforeNext(f: Forest, i: nat)
    requires WellFormed(f) && i < |f.regionIDs|
    ensures forall r :: Before(f.regionIDs, r, i + 1) <==> Before(f.regionIDs, r, i) || r == f.regionIDs[i]
    ensures RegionIndex(f.regionIDs, f.regionIDs[i]) == i
  {
    hide RegionIndex;
    var j := RegionIndex(f.regionIDs, f.regionIDs[i]);
    assert f.regionIDs[j] == f.regionIDs[i];
    forall r ensures Before(f.regionIDs, r, i + 1) <==> Before(f.regionIDs, r, i) || r == f.regionIDs[i] {
      if r in f.regionIDs { assert RegionIndex(f.regionIDs, r) == i <==> r == f.regionIDs[i]; }
    }
  }

  lemma BeforeAll(regionIDs: seq<Text>)
    ensures forall r :: Before(regionIDs, r, |regionIDs|) <==> r in regionIDs
  {}

  /** The shards of all regions are the shards of the forest. */
  lemma AllShards(f: Forest)
    requires WellFormed(f)
    ensures forall k :: k in f.segments <==>
      Before(f.regionIDs, k.regionID, |f.regionIDs|) && 0 <= k.shardID < f.numShards
  {
    BeforeAll(f.regionIDs);
  }

  lemma GlobalLeavesAre(f: Forest, roots: seq<Digest>)
    requires WellFormed(f) && |roots| == |f.regionIDs|
    requires forall k :: 0 <= k < |roots| ==> roots[k] == RegionCommitment(f, f.regionIDs[k])
    ensures roots == GlobalLeaves(f)
  {
    hide RegionCommitment;
  }

  lemma EmptyShard(f: Forest, rid: Text, s: nat)
    requires WellFormed(f) && Unused(f) && rid in f.regionIDs && s < f.numShards
    ensures ShardKey(rid, s) in f.segments && f.segments[ShardKey(rid, s)] == []
    ensures ShardLeaves(f, ShardKey(rid, s)) == []
  {
    assert HasShard(f, ShardKey(rid, s));
  }

  lemma EmptyShards(f: Forest, rid: Text, roots: seq<Digest>)
    requires WellFormed(f) && Unused(f) && rid in f.regionIDs && |roots| == f.numShards
    requires forall k :: 0 <= k < |roots| ==> roots[k] == CommitShardRoot(rid, k, 0, 0)
    ensures roots == RegionLeaves(f, rid)
  {
    hide WellFormed, ShardLeaves, Unused;
    var leaves := RegionLeaves(f, rid);
    forall s | 0 <= s < |roots| ensures leaves[s] == roots[s] {
      EmptyShard(f, rid, s);
    }
  }

  lemma HasRegions(f: Forest)
    requires WellFormed(f)
    ensures f.numShards > 0 && f.regionIDs != []
  {}
}
