/** The trees of a forest, from the Global tree down to the sealed Segment trees. */
module ForestTrees {
  import opened Hashing
  import opened Merkle
  import opened ProofTypes
  import opened Forests
  import opened ProofInputs

  /** The leaf hashes of the sealed segments. */
  type Contents = map<TreeRef, seq<Digest>>

  predicate SegmentBacked(key: ShardKey, s: SealedSegment, contents: Contents) {
    var t := SegmentTree(key.regionID, key.shardID, s.segmentID);
    t in contents && contents[t] != [] && |contents[t]| == s.leafCount && Root(contents[t]) == s.rawRoot
  }

  /** Every sealed segment in the forest is the root of stored leaves. */
  ghost predicate Backed(f: Forest, contents: Contents) {
    forall key, i :: key in f.segments && 0 <= i < |f.segments[key]| ==>
      SegmentBacked(key, f.segments[key][i], contents)
  }

  ghost predicate Stored(f: Forest, contents: Contents) {
    WellFormed(f) && Backed(f, contents)
  }

  function KeyOf(t: TreeRef): ShardKey {
    ShardKey(t.regionID, t.shardID)
  }

  predicate HasSegment(segments: seq<SealedSegment>, segmentID: int) {
    exists i :: 0 <= i < |segments| && segments[i].segmentID == segmentID
  }

  predicate HasTree(f: Forest, t: TreeRef) {
    if t.layer == LAYER_SEGMENT then KeyOf(t) in f.segments && HasSegment(f.segments[KeyOf(t)], t.segmentID)
    else if t.layer == LAYER_SHARD then KeyOf(t) in f.segments && t == ShardTree(t.regionID, t.shardID)
    else if t.layer == LAYER_REGION then t.regionID in f.regionIDs && t == RegionTree(t.regionID)
    else t == GLOBAL_TREE
  }

  function AllTrees(f: Forest): (s: set<TreeRef>)
    ensures forall t :: t in s <==> HasTree(f, t)
  {
    assert forall t :: HasTree(f, t) && t.layer == LAYER_SHARD ==> KeyOf(t) in f.segments;
    assert forall t :: HasTree(f, t) && t.layer == LAYER_SEGMENT ==>
      t == SegmentTree(t.regionID, t.shardID, t.segmentID);
    {GLOBAL_TREE} + (set r | r in f.regionIDs :: RegionTree(r))
    + (set k | k in f.segments :: ShardTree(k.regionID, k.shardID))
    + (set k, i | k in f.segments && 0 <= i < |f.segments[k]|
       :: SegmentTree(k.regionID, k.shardID, f.segments[k][i].segmentID))
  }

  function LeavesOf(f: Forest, contents: Contents, t: TreeRef): seq<Digest>
    requires Stored(f, contents) && HasTree(f, t)
  {
    if t.layer == LAYER_SEGMENT then
      var i :| 0 <= i < |f.segments[KeyOf(t)]| && f.segments[KeyOf(t)][i].segmentID == t.segmentID;
      assert SegmentBacked(KeyOf(t), f.segments[KeyOf(t)][i], contents);
      contents[t]
    else if t.layer == LAYER_SHARD then ShardLeaves(f, KeyOf(t))
    else if t.layer == LAYER_REGION then RegionLeaves(f, t.regionID)
    else GlobalLeaves(f)
  }

  /** What committing to a tree's raw root hashes. */
  function Commitment(t: TreeRef, leafCount: int, rawRoot: Digest): Preimage {
    if t.layer == LAYER_SEGMENT then TreeCommitment(SegmentKind, t.regionID, t.shardID, t.segmentID, leafCount, rawRoot)
    else if t.layer == LAYER_SHARD then TreeCommitment(ShardKind, t.regionID, t.shardID, -1, leafCount, rawRoot)
    else if t.layer == LAYER_REGION then TreeCommitment(RegionKind, t.regionID, -1, -1, leafCount, rawRoot)
    else TreeCommitment(GlobalKind, [], -1, -1, leafCount, rawRoot)
  }

  lemma CommittedRootIs(t: TreeRef, leafCount: int, rawRoot: Digest)
    requires LAYER_SEGMENT <= t.layer <= LAYER_GLOBAL
    ensures CommittedRoot(t, leafCount, rawRoot) == H(Commitment(t, leafCount, rawRoot))
  {}

  function TreeCommitted(f: Forest, contents: Contents, t: TreeRef): Preimage
    requires Stored(f, contents) && HasTree(f, t)
  {
    Commitment(t, |LeavesOf(f, contents, t)|, RawRoot(LeavesOf(f, contents, t)))
  }

  /** The tree whose committed root is leaf i of an upper tree. */
  function ChildAt(f: Forest, t: TreeRef, i: int): TreeRef {
    if t.layer == LAYER_SHARD && KeyOf(t) in f.segments && 0 <= i < |f.segments[KeyOf(t)]|
    then SegmentTree(t.regionID, t.shardID, f.segments[KeyOf(t)][i].segmentID)
    else if t.layer == LAYER_REGION then ShardTree(t.regionID, i)
    else if t.layer == LAYER_GLOBAL && 0 <= i < |f.regionIDs| then RegionTree(f.regionIDs[i])
    else t
  }

  /** Every leaf of an upper tree is the committed root of a tree of the forest. */
  lemma LeafIsChild(f: Forest, contents: Contents, t: TreeRef, i: int)
    requires Stored(f, contents) && HasTree(f, t) && t.layer != LAYER_SEGMENT && 0 <= i < |LeavesOf(f, contents, t)|
    ensures var c := ChildAt(f, t, i);
      c.layer == t.layer - 1 && HasTree(f, c) && LeavesOf(f, contents, t)[i] == H(TreeCommitted(f, contents, c))
  {
    hide Root, ShardLeaves, RegionLeaves, GlobalLeaves;
    if t.layer == LAYER_SHARD { SegmentLeaf(f, contents, KeyOf(t), i); }
    else if t.layer == LAYER_REGION { ShardLeaf(f, contents, t.regionID, i); }
    else { RegionLeaf(f, contents, i); }
  }

  lemma SegmentLeaf(f: Forest, contents: Contents, key: ShardKey, i: int)
    requires Stored(f, contents) && key in f.segments && 0 <= i < |f.segments[key]|
    ensures var c := SegmentTree(key.regionID, key.shardID, f.segments[key][i].segmentID);
      HasTree(f, c) && ShardLeaves(f, key)[i] == H(TreeCommitted(f, contents, c))
  {
    hide Root, WellFormed;
    assert SegmentBacked(key, f.segments[key][i], contents);
  }

  lemma ShardLeaf(f: Forest, contents: Contents, regionID: Text, s: int)
    requires Stored(f, contents) && regionID in f.regionIDs && 0 <= s < f.numShards
    ensures var c := ShardTree(regionID, s);
      HasTree(f, c) && RegionLeaves(f, regionID)[s] == H(TreeCommitted(f, contents, c))
  {
    hide Root, WellFormed, Backed, ShardLeaves;
    assert RegionLeaves(f, regionID)[s] == ShardCommitment(f, ShardKey(regionID, s));
  }

  lemma RegionLeaf(f: Forest, contents: Contents, i: int)
    requires Stored(f, contents) && 0 <= i < |f.regionIDs|
    ensures var c := RegionTree(f.regionIDs[i]);
      HasTree(f, c) && GlobalLeaves(f)[i] == H(TreeCommitted(f, contents, c))
  {
    hide Root, Backed, RegionLeaves;
    assert f.numShards == |RegionLeaves(f, f.regionIDs[i])| > 0;
    assert GlobalLeaves(f)[i] == RegionCommitment(f, f.regionIDs[i]);
  }

  lemma GlobalRootIs(f: Forest, contents: Contents)
    requires Stored(f, contents)
    ensures HasTree(f, GLOBAL_TREE) && ForestRoot(f) == H(TreeCommitted(f, contents, GLOBAL_TREE))
  {
    hide Root, Backed, GlobalLeaves;
    assert |GlobalLeaves(f)| > 0;
  }

  /** Everything hashed to build the forest. */
  function ForestPreimages(f: Forest, contents: Contents): set<Preimage>
    requires Stored(f, contents)
  {
    (set t, p | t in AllTrees(f) && p in TreePreimages(LeavesOf(f, contents, t)) :: p)
    + (set t | t in AllTrees(f) :: TreeCommitted(f, contents, t))
  }

  lemma TreeHashed(f: Forest, contents: Contents, t: TreeRef)
    requires Stored(f, contents) && HasTree(f, t)
    ensures Within(TreePreimages(LeavesOf(f, contents, t)), ForestPreimages(f, contents))
    ensures TreeCommitted(f, contents, t) in ForestPreimages(f, contents)
  {
    hide TreePreimages, LeavesOf, TreeCommitted, Stored, HasTree;
    assert t in AllTrees(f);
  }
}
