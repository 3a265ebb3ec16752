/** The Segment tree (internal/hmf/segment_tree.go): leaves are appended until the segment
    is sealed; sealing builds every internal node level by level. */
module SegmentTrees {
  import opened Hashing
  import opened Merkle
  import opened NodeStore

  class SegmentTree {
    const regionID: Text
    const shardID: int
    const segmentID: int
    const maxLeaves: int
    var leafCount: int
    var height: int
    var root: Digest
    var isSealed: bool
    var levels: seq<seq<MerkleNode>>

    /** The appended leaves. */
    ghost var leaves: seq<Digest>

    ghost predicate Valid()
      reads this
    {
      && leafCount == |leaves|
      && 0 < |levels| && levels[0] == RowNodes(leaves, 0)
      && (!isSealed ==> |levels| == 1)
      && (isSealed ==> leaves != [] && height == Height(|leaves|) && root == Root(leaves))
      && (isSealed ==> |levels| == height + 1 && forall l :: 0 <= l <= height ==> levels[l] == RowNodes(leaves, l))
    }

    constructor (regionID: Text, shardID: int, segmentID: int, maxLeaves: int)
      ensures Valid() && !isSealed && leaves == []
      ensures this.regionID == regionID && this.shardID == shardID
      ensures this.segmentID == segmentID && this.maxLeaves == maxLeaves
    {
      this.regionID, this.shardID, this.segmentID, this.maxLeaves := regionID, shardID, segmentID, maxLeaves;
      leafCount, height, root, isSealed := 0, 0, 0, false;
      levels := [[]];
      leaves := [];
    }

    method Append(h: Digest) returns (ok: bool)
      requires Valid()
      modifies this
      ensures Valid()
      ensures ok <==> !old(isSealed) && old(leafCount) < maxLeaves
      ensures leaves == if ok then old(leaves) + [h] else old(leaves)
      ensures isSealed == old(isSealed) && height == old(height) && root == old(root)
      ensures !ok ==> levels == old(levels)
    {
      if isSealed { return false; }
      if leafCount >= maxLeaves { return false; }
      levels := [levels[0] + [MerkleNode(0, leafCount, h)]];
      leaves := leaves + [h];
      leafCount := leafCount + 1;
      return true;
    }

    /** Builds the internal nodes; `updates` are all nodes of the tree, level by level. */
    method BuildInternalNodes() returns (r: Result<seq<MerkleNode>>)
      requires Valid() && !isSealed
      modifies this
      ensures leaves == old(leaves) && isSealed == old(isSealed) && leafCount == old(leafCount)
      ensures r.Err? <==> leaves == []
      ensures r.Err? ==> Valid() && height == old(height) && root == old(root) && levels == old(levels)
      ensures r.Ok? ==> r.value == NodesBelow(leaves, Height(|leaves|) + 1)
      ensures r.Ok? ==> height == Height(|leaves|) && root == Root(leaves)
      ensures r.Ok? ==> |levels| == height + 1 && forall l :: 0 <= l <= height ==> levels[l] == RowNodes(leaves, l)
    {
      hide Row, Width, Height, RowNodes, NodesBelow;
      if leafCount == 0 { return Err; }
      var updates := levels[0];
      var level := 1;
      NodesBelowStep(leaves, 0);
      while |levels[level - 1]| > 1
        invariant 1 <= level == |levels| <= Height(|leaves|) + 1
        invariant forall l :: 0 <= l < level ==> levels[l] == RowNodes(leaves, l)
        invariant updates == NodesBelow(leaves, level)
        invariant leaves == old(leaves) && isSealed == old(isSealed) && leafCount == old(leafCount) > 0
        decreases Height(|leaves|) + 1 - level
      {
        AtTop(|leaves|, level - 1);
        NodesBelowStep(leaves, level);
        var nodes := BuildRow(level, levels[level - 1], leaves);
        updates := updates + nodes;
        levels := levels + [nodes];
        level := level + 1;
      }
      AtTop(|leaves|, level - 1);
      TopWidth(|leaves|);
      height := |levels| - 1;
      root := levels[height][0].hash;
      return Ok(updates);
    }

    method Seal() returns (r: Result<seq<MerkleNode>>)
      requires Valid()
      modifies this
      ensures Valid() && leaves == old(leaves)
      ensures r.Ok? <==> !old(isSealed) && leaves != []
      ensures r.Ok? ==> isSealed && r.value == NodesBelow(leaves, Height(|leaves|) + 1)
      ensures r.Err? ==>
        isSealed == old(isSealed) && levels == old(levels) && root == old(root) && height == old(height)
    {
      if isSealed { return Err; }
      r := BuildInternalNodes();
      if r.Ok? { isSealed := true; }
    }
  }

  /** Pairs the nodes of a level; an unpaired last node is promoted. */
  method BuildRow(level: nat, children: seq<MerkleNode>, ghost leaves: seq<Digest>) returns (nodes: seq<MerkleNode>)
    requires level > 0 && children == RowNodes(leaves, level - 1)
    ensures nodes == RowNodes(leaves, level)
  {
    hide RowNodes, Row, Width;
    ghost var row := RowNodes(leaves, level);
    nodes := [];
    var index := 0;
    WidthStep(|leaves|, level);
    while index < |children|
      invariant index % 2 == 0 && 0 <= index <= |children| + 1
      invariant |nodes| == index / 2 <= |row|
      invariant forall k :: 0 <= k < |nodes| ==> nodes[k] == row[k]
    {
      var hash := children[index].hash;
      if index + 1 < |children| {
        hash := HashPair(children[index].hash, children[index + 1].hash);
      }
      RowNodesAt(leaves, level, index / 2);
      nodes := nodes + [MerkleNode(level, index / 2, hash)];
      index := index + 2;
    }
  }

  lemma WidthStep(n: nat, level: nat)
    requires level > 0
    ensures Width(n, level) == (Width(n, level - 1) + 1) / 2
  {}

  /** The reference row, node by node. */
  lemma RowNodesAt(leaves: seq<Digest>, level: nat, i: nat)
    requires level > 0 && 2 * i < Width(|leaves|, level - 1)
    ensures i < Width(|leaves|, level)
    ensures RowNodes(leaves, level)[i] == MerkleNode(level, i, Parent(Row(leaves, level - 1), i))
  {}

  /** The nodes a sealed segment emits are exactly the nodes of its tree. */
  lemma SealedNodesSuffice(leaves: seq<Digest>)
    requires leaves != []
    ensures Replay(map[], NodesBelow(leaves, Height(|leaves|) + 1)) == NodeMap(leaves)
  {
    hide Replay, NodesBelow, InTree, NodeAt, Height, AllNodes, Emitted;
    var updates := NodesBelow(leaves, Height(|leaves|) + 1);
    NodesBelowAre(leaves, Height(|leaves|) + 1);
    ReplayNodes(map[], leaves, updates);
    InTreeBelowTop(|leaves|);
    var after, all := Replay(map[], updates), NodeMap(leaves);
    assert forall p :: p in after <==> p in all;
    assert forall p :: p in after ==> after[p] == all[p];
  }

  lemma InTreeBelowTop(n: nat)
    ensures forall p :: InTree(n, p) ==> p.level < Height(n) + 1
  {}

  lemma NodesBelowStep(leaves: seq<Digest>, level: nat)
    ensures NodesBelow(leaves, level + 1) == NodesBelow(leaves, level) + RowNodes(leaves, level)
    ensures NodesBelow(leaves, 0) == []
  {}

  lemma {:induction false} NodesBelowAre(leaves: seq<Digest>, top: nat)
    requires top <= Height(|leaves|) + 1
    ensures AllNodes(leaves, NodesBelow(leaves, top))
    ensures forall p :: Emitted(NodesBelow(leaves, top), p) <==> InTree(|leaves|, p) && p.level < top
    decreases top
  {
    if top > 0 {
      NodesBelowAre(leaves, top - 1);
      var below, row := NodesBelow(leaves, top - 1), RowNodes(leaves, top - 1);
      forall p ensures Emitted(below + row, p) <==> InTree(|leaves|, p) && p.level < top {
        EmittedConcat(below, row, p);
        if p.level == top - 1 && InTree(|leaves|, p) { assert At(row, p.index) == p; }
      }
    }
  }

  lemma EmittedConcat(a: seq<MerkleNode>, b: seq<MerkleNode>, p: Position)
    ensures Emitted(a + b, p) <==> Emitted(a, p) || Emitted(b, p)
  {
    if Emitted(a, p) {
      var k :| 0 <= k < |a| && At(a, k) == p;
      assert At(a + b, k) == p;
    }
    if Emitted(b, p) {
      var k :| 0 <= k < |b| && At(b, k) == p;
      assert At(a + b, |a| + k) == p;
    }
    if Emitted(a + b, p) {
      var k :| 0 <= k < |a + b| && At(a + b, k) == p;
      if k < |a| { assert At(a, k) == p; } else { assert At(b, k - |a|) == p; }
    }
  }
}
