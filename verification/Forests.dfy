/** The forest as a value: which sealed segments each shard holds, and the committed roots
    that follow from it (internal/hmf/commitment.go, internal/hmf/hmf.go). */
module Forests {
  import opened Hashing
  import opened Merkle

  function CommitSegmentRoot(regionID: Text, shardID: int, segmentID: int, leafCount: int, rawRoot: Digest): Digest {
    H(TreeCommitment(SegmentKind, regionID, shardID, segmentID, leafCount, rawRoot))
  }

  function CommitShardRoot(regionID: Text, shardID: int, leafCount: int, rawRoot: Digest): Digest {
    H(TreeCommitment(ShardKind, regionID, shardID, -1, leafCount, rawRoot))
  }

  function CommitRegionRoot(regionID: Text, leafCount: int, rawRoot: Digest): Digest {
    H(TreeCommitment(RegionKind, regionID, -1, -1, leafCount, rawRoot))
  }

  function CommitGlobalRoot(leafCount: int, rawRoot: Digest): Digest {
    H(TreeCommitment(GlobalKind, [], -1, -1, leafCount, rawRoot))
  }

  datatype ShardKey = ShardKey(regionID: Text, shardID: int)

  datatype SealedSegment = SealedSegment(segmentID: int, leafCount: int, rawRoot: Digest)

  /** Shards of a region are numbered from 0; `segments` lists what each shard has appended. */
  datatype Forest = Forest(regionIDs: seq<Text>, numShards: nat, segments: map<ShardKey, seq<SealedSegment>>)

  predicate ValidRegions(regionIDs: seq<Text>) {
    && (forall i :: 0 <= i < |regionIDs| ==> regionIDs[i] != [])
    && (forall i, j :: 0 <= i < j < |regionIDs| ==> regionIDs[i] != regionIDs[j])
  }

  predicate HasShard(f: Forest, key: ShardKey) {
    key.regionID in f.regionIDs && 0 <= key.shardID < f.numShards
  }

  ghost predicate WellFormed(f: Forest) {
    && f.regionIDs != [] && f.numShards > 0 && ValidRegions(f.regionIDs)
    && (forall key :: key in f.segments <==> HasShard(f, key))
    && (forall key :: key in f.segments ==> SegmentsValid(f.segments[key]))
  }

  predicate SegmentsValid(segments: seq<SealedSegment>) {
    forall i :: 0 <= i < |segments| ==> segments[i].segmentID >= 0 && segments[i].leafCount > 0
  }

  function SegmentCommitment(key: ShardKey, s: SealedSegment): Digest {
    CommitSegmentRoot(key.regionID, key.shardID, s.segmentID, s.leafCount, s.rawRoot)
  }

  function ShardLeavesOf(key: ShardKey, segments: seq<SealedSegment>): (r: seq<Digest>)
    ensures |r| == |segments|
    ensures forall i :: 0 <= i < |r| ==> r[i] == SegmentCommitment(key, segments[i])
  {
    seq(|segments|, i requires 0 <= i < |segments| => SegmentCommitment(key, segments[i]))
  }

  function ShardLeaves(f: Forest, key: ShardKey): (r: seq<Digest>)
    requires key in f.segments
    ensures |r| == |f.segments[key]|
  {
    ShardLeavesOf(key, f.segments[key])
  }

  function RawRoot(leaves: seq<Digest>): Digest {
    if leaves == [] then 0 else Root(leaves)
  }

  function ShardCommitment(f: Forest, key: ShardKey): Digest
    requires key in f.segments
  {
    CommitShardRoot(key.regionID, key.shardID, |f.segments[key]|, RawRoot(ShardLeaves(f, key)))
  }

  function RegionLeaves(f: Forest, regionID: Text): (r: seq<Digest>)
    requires WellFormed(f) && regionID in f.regionIDs
    ensures |r| == f.numShards
    ensures forall s :: 0 <= s < |r| ==>
      ShardKey(regionID, s) in f.segments && r[s] == ShardCommitment(f, ShardKey(regionID, s))
  {
    assert forall s :: 0 <= s < f.numShards ==> HasShard(f, ShardKey(regionID, s));
    seq(f.numShards, s requires 0 <= s < f.numShards => ShardCommitment(f, ShardKey(regionID, s)))
  }

  function RegionCommitment(f: Forest, regionID: Text): Digest
    requires WellFormed(f) && regionID in f.regionIDs
  {
    CommitRegionRoot(regionID, f.numShards, Root(RegionLeaves(f, regionID)))
  }

  function GlobalLeaves(f: Forest): (r: seq<Digest>)
    requires WellFormed(f)
    ensures |r| == |f.regionIDs|
    ensures forall i :: 0 <= i < |r| ==> r[i] == RegionCommitment(f, f.regionIDs[i])
  {
    seq(|f.regionIDs|, i requires 0 <= i < |f.regionIDs| => RegionCommitment(f, f.regionIDs[i]))
  }

  /** The externally anchored root of the forest. */
  function ForestRoot(f: Forest): Digest
    requires WellFormed(f)
  {
    CommitGlobalRoot(|f.regionIDs|, Root(GlobalLeaves(f)))
  }

  function EmptyForest(regionIDs: seq<Text>, numShards: nat): Forest {
    Forest(regionIDs, numShards, map key | key in ShardKeys(regionIDs, numShards) :: [])
  }

  function ShardKeys(regionIDs: seq<Text>, numShards: nat): set<ShardKey> {
    set r, s | r in regionIDs && 0 <= s < numShards :: ShardKey(r, s)
  }

  function Appended(f: Forest, key: ShardKey, s: SealedSegment): Forest
    requires key in f.segments
  {
    f.(segments := f.segments[key := f.segments[key] + [s]])
  }

  /** The position of a region's root among the Global tree's leaves. */
  function RegionIndex(regionIDs: seq<Text>, regionID: Text): (i: nat)
    requires regionID in regionIDs
    ensures i < |regionIDs| && regionIDs[i] == regionID
  {
    if regionIDs[0] == regionID then 0 else 1 + RegionIndex(regionIDs[1..], regionID)
  }

  lemma EmptyWellFormed(regionIDs: seq<Text>, numShards: nat)
    requires regionIDs != [] && numShards > 0 && ValidRegions(regionIDs)
    ensures WellFormed(EmptyForest(regionIDs, numShards))
  {
    var f := EmptyForest(regionIDs, numShards);
    forall key ensures key in f.segments <==> HasShard(f, key) {
      if HasShard(f, key) { assert key == ShardKey(key.regionID, key.shardID); }
    }
  }

  lemma AppendedWellFormed(f: Forest, key: ShardKey, s: SealedSegment)
    requires WellFormed(f) && key in f.segments && s.segmentID >= 0 && s.leafCount > 0
    ensures WellFormed(Appended(f, key, s))
  {
    forall k ensures k in Appended(f, key, s).segments <==> HasShard(Appended(f, key, s), k) {
      assert HasShard(Appended(f, key, s), k) == HasShard(f, k);
    }
  }

  /** Shard `key` gained the segment `s` as its last leaf; no other shard changed. */
  ghost predicate ShardChanged(f: Forest, f': Forest, key: ShardKey, s: SealedSegment) {
    && (forall k :: k in f'.segments <==> k in f.segments) && key in f.segments && f'.segments[key] != []
    && ShardLeaves(f', key) == ShardLeaves(f, key) + [SegmentCommitment(key, s)]
    && (forall k :: k in f.segments && k != key ==> ShardLeaves(f', k) == ShardLeaves(f, k))
  }

  /** Of all Region trees only one changed, in one leaf. */
  ghost predicate RegionChanged(f: Forest, f': Forest, key: ShardKey) {
    && WellFormed(f) && WellFormed(f') && f'.regionIDs == f.regionIDs && f'.numShards == f.numShards
    && key in f'.segments && key.regionID in f.regionIDs && 0 <= key.shardID < f.numShards
    && RegionLeaves(f', key.regionID) == RegionLeaves(f, key.regionID)[key.shardID := ShardCommitment(f', key)]
    && (forall r :: r in f.regionIDs && r != key.regionID ==> RegionLeaves(f', r) == RegionLeaves(f, r))
  }

  /** The Global tree changed in one leaf. */
  ghost predicate GlobalChanged(f: Forest, f': Forest, regionID: Text) {
    && WellFormed(f) && WellFormed(f') && f'.regionIDs == f.regionIDs && regionID in f.regionIDs
    && GlobalLeaves(f') == GlobalLeaves(f)[RegionIndex(f.regionIDs, regionID) := RegionCommitment(f', regionID)]
  }

  /** Appending to one shard changes one leaf of its Region tree and one of the Global tree. */
  lemma AppendedChanges(f: Forest, key: ShardKey, s: SealedSegment)
    requires WellFormed(f) && key in f.segments && s.segmentID >= 0 && s.leafCount > 0
    ensures var f' := Appended(f, key, s);
      && WellFormed(f') && ShardChanged(f, f', key, s) && RegionChanged(f, f', key)
      && GlobalChanged(f, f', key.regionID)
      && f'.regionIDs == f.regionIDs && f'.numShards == f.numShards && key.regionID in f.regionIDs
      && forall k :: k in f'.segments <==> k in f.segments
  {
    hide WellFormed, RegionLeaves, GlobalLeaves, ShardLeaves, Root, RegionIndex, RegionCommitment, ShardCommitment;
    AppendedWellFormed(f, key, s);
    ShardLeavesAppended(f, key, s);
    forall r | r in f.regionIDs
      ensures r == key.regionID ==>
        RegionLeaves(Appended(f, key, s), r)
          == RegionLeaves(f, r)[key.shardID := ShardCommitment(Appended(f, key, s), key)]
      ensures r != key.regionID ==> RegionLeaves(Appended(f, key, s), r) == RegionLeaves(f, r)
    {
      RegionLeavesAppended(f, key, s, r);
    }
    GlobalLeavesAppended(f, key, s);
  }

  lemma ShardLeavesAppended(f: Forest, key: ShardKey, s: SealedSegment)
    requires WellFormed(f) && key in f.segments
    ensures var f' := Appended(f, key, s);
      && key.regionID in f.regionIDs && 0 <= key.shardID < f.numShards
      && ShardLeaves(f', key) == ShardLeaves(f, key) + [SegmentCommitment(key, s)]
      && (forall k :: k in f.segments && k != key ==> k in f'.segments && ShardLeaves(f', k) == ShardLeaves(f, k))
  {
    assert HasShard(f, key);
  }

  lemma RegionLeavesAppended(f: Forest, key: ShardKey, s: SealedSegment, r: Text)
    requires WellFormed(f) && key in f.segments && WellFormed(Appended(f, key, s)) && r in f.regionIDs
    requires 0 <= key.shardID < f.numShards
    ensures var f' := Appended(f, key, s);
      RegionLeaves(f', r)
      == if r == key.regionID then RegionLeaves(f, r)[key.shardID := ShardCommitment(f', key)] else RegionLeaves(f, r)
  {
    hide WellFormed, Root;
    var f' := Appended(f, key, s);
    forall k | 0 <= k < f.numShards ensures RegionLeaves(f', r)[k]
      == if r == key.regionID && k == key.shardID then ShardCommitment(f', key) else RegionLeaves(f, r)[k] {}
  }

  lemma GlobalLeavesAppended(f: Forest, key: ShardKey, s: SealedSegment)
    requires WellFormed(f) && key in f.segments && WellFormed(Appended(f, key, s)) && key.regionID in f.regionIDs
    requires var f' := Appended(f, key, s);
      forall r :: r in f.regionIDs && r != key.regionID ==> RegionLeaves(f', r) == RegionLeaves(f, r)
    ensures var f' := Appended(f, key, s);
      GlobalLeaves(f') == GlobalLeaves(f)[RegionIndex(f.regionIDs, key.regionID) := RegionCommitment(f', key.regionID)]
  {
    hide Root, RegionLeaves;
    var f' := Appended(f, key, s);
    var i := RegionIndex(f.regionIDs, key.regionID);
    forall k | 0 <= k < |f.regionIDs| ensures GlobalLeaves(f')[k]
      == if k == i then RegionCommitment(f', key.regionID) else GlobalLeaves(f)[k]
    {
      if k != i { assert f.regionIDs[k] != key.regionID; }
    }
  }
}
