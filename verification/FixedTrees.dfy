/** The Region and Global trees (internal/hmf/region_tree.go, internal/hmf/global_tree.go):
    a fixed number of leaves, one leaf and its path to the root rewritten at a time. The two
    Go types are the same code; one class models both. */
module FixedTrees {
  import opened Hashing
  import opened Merkle
  import opened NodeStore
  import opened SegmentTrees

  /** bits.Len */
  function BitLength(x: nat): nat {
    if x == 0 then 0 else 1 + BitLength(x / 2)
  }

  lemma {:induction false} BitLengthIsHeight(n: nat)
    requires n > 0
    ensures BitLength(n - 1) == Height(n)
    decreases n
  {
    if n > 1 {
      BitLengthIsHeight((n + 1) / 2);
      assert (n - 1) / 2 == (n + 1) / 2 - 1;
    }
  }

  /** The nodes that rewriting the path from leaf `index` emits above `level`: at every
      level the sibling of the path's node, if it has one, and the parent. */
  function PathAbove(leaves: seq<Digest>, level: nat, index: nat): seq<MerkleNode>
    requires level <= Height(|leaves|) && index < Width(|leaves|, level)
    decreases Height(|leaves|) - level
  {
    if level == Height(|leaves|) then [] else
      var row := Row(leaves, level);
      var sibling := if index % 2 == 0 then index + 1 else index - 1;
      (if sibling < |row| then [MerkleNode(level, sibling, row[sibling])] else [])
      + [MerkleNode(level + 1, index / 2, Row(leaves, level + 1)[index / 2])]
      + PathAbove(leaves, level + 1, index / 2)
  }

  /** Everything emitted when leaf `index` is rewritten. */
  function PathUpdates(leaves: seq<Digest>, index: nat): seq<MerkleNode>
    requires index < |leaves|
  {
    [MerkleNode(0, index, leaves[index])] + PathAbove(leaves, 0, index)
  }

  /** Levels of a tree after its leaves changed at `index`, the path rewritten up to `level`. */
  ghost predicate PathRewritten(levels: seq<seq<MerkleNode>>, before: seq<Digest>, after: seq<Digest>, level: nat) {
    && |levels| == Height(|after|) + 1
    && (forall l :: 0 <= l < |levels| ==> levels[l] == RowNodes(if l <= level then after else before, l))
  }

  class FixedTree {
    const regionID: Text  // empty for the Global tree
    const size: nat
    const height: nat
    var root: Digest
    var levels: seq<seq<MerkleNode>>

    ghost var leaves: seq<Digest>

    ghost predicate Valid()
      reads this
    {
      && Shaped() && 0 < size == |leaves|
      && (forall l :: 0 <= l <= height ==> levels[l] == RowNodes(leaves, l))
      && root == Root(leaves)
    }

    /** The layout the constructor allocates. */
    ghost predicate Shaped()
      reads this
    {
      && 0 < size && height == Height(size) && |levels| == height + 1
      && (forall l :: 0 <= l <= height ==> |levels[l]| == Width(size, l))
    }

    lemma Layout()
      requires Valid()
      ensures Shaped()
    {}

    lemma Counts()
      requires Valid()
      ensures 0 < size == |leaves| && height == Height(size) && root == Root(leaves)
    {}

    /** All leaves are the zero digest. */
    constructor (regionID: Text, size: nat)
      requires size > 0
      ensures Valid() && this.regionID == regionID && this.size == size && leaves == seq(size, _ => 0)
    {
      this.regionID, this.size := regionID, size;
      height := BitLength(size - 1);
      leaves := [];
      root := 0;
      var treeHeight := BitLength(size - 1);
      BitLengthIsHeight(size);
      var made: seq<seq<MerkleNode>> := [];
      var nodeCount := size;
      for level := 0 to treeHeight + 1
        invariant |made| == level && nodeCount == Width(size, level)
        invariant forall l :: 0 <= l < level ==> |made[l]| == Width(size, l)
      {
        made := made + [seq(nodeCount, _ => MerkleNode(0, 0, 0))];
        nodeCount := (nodeCount + 1) / 2;
      }
      levels := made;
      new;
      var _ := Build(seq(size, _ => 0));
    }

    /** Sets all leaves and builds every level. */
    method Build(hashes: seq<Digest>) returns (r: Result<seq<MerkleNode>>)
      requires Shaped()
      modifies this
      ensures r.Ok? <==> |hashes| == size
      ensures r.Err? ==> leaves == old(leaves) && levels == old(levels) && root == old(root)
      ensures r.Ok? ==> Valid() && leaves == hashes && r.value == NodesBelow(leaves, height + 1)
    {
      hide Row, Width, Height, RowNodes, NodesBelow;
      if |hashes| != size { return Err; }
      leaves := hashes;
      var row := seq(size, i requires 0 <= i < size => MerkleNode(0, i, hashes[i]));
      LeafRow(hashes, row);
      levels := levels[0 := row];
      var updates := row;
      NodesBelowStep(leaves, 0);
      var level := 1;
      while level <= height
        invariant 1 <= level <= height + 1 && leaves == hashes && |levels| == height + 1
        invariant forall l :: level <= l <= height ==> |levels[l]| == Width(size, l)
        invariant forall l :: 0 <= l < level ==> levels[l] == RowNodes(leaves, l)
        invariant updates == NodesBelow(leaves, level)
      {
        row := BuildRow(level, levels[level - 1], leaves);
        levels := levels[level := row];
        updates := updates + row;
        NodesBelowStep(leaves, level);
        level := level + 1;
      }
      TopNode(leaves);
      root := levels[height][0].hash;
      return Ok(updates);
    }

    /** Replaces one leaf and rewrites its path to the root. */
    method UpdateRoot(index: int, hash: Digest) returns (r: Result<seq<MerkleNode>>)
      requires Valid()
      modifies this
      ensures Valid()
      ensures r.Ok? <==> 0 <= index < size
      ensures r.Ok? ==> leaves == old(leaves)[index := hash] && r.value == PathUpdates(leaves, index)
      ensures r.Err? ==> leaves == old(leaves) && root == old(root)
      ensures 0 < size == |leaves| && height == Height(size) && root == Root(leaves)
    {
      hide Row, Width, Height, Root;
      if index < 0 || index >= size { return Err; }
      var leaf := MerkleNode(0, index, hash);
      ghost var before := leaves;
      leaves := leaves[index := hash];
      LeafRewritten(before, index, hash);
      levels := levels[0 := levels[0][index := leaf]];
      assert PathRewritten(levels, before, leaves, 0);
      var updates := RecomputePath(index, [leaf], before);
      return Ok(updates);
    }

    method RecomputePath(leafIndex: nat, updates0: seq<MerkleNode>,
                         ghost before: seq<Digest>) returns (updates: seq<MerkleNode>)
      requires 0 < size == |leaves| == |before| && height == Height(size) && leafIndex < size
      requires leaves == before[leafIndex := leaves[leafIndex]]
      requires PathRewritten(levels, before, leaves, 0)
      modifies this
      ensures Valid() && leaves == old(leaves)
      ensures updates == updates0 + PathAbove(leaves, 0, leafIndex)
    {
      hide Row, Width, Height, Root, PathAbove, RowNodes;
      updates := updates0;
      PathStart(before, leaves, leafIndex);
      ghost var todo := PathAbove(leaves, 0, leafIndex);
      var index := leafIndex;
      var level := 1;
      assert updates + todo == updates0 + PathAbove(leaves, 0, leafIndex);
      while level <= height
        invariant 1 <= level <= height + 1 && leaves == old(leaves)
        invariant PathRewritten(levels, before, leaves, level - 1)
        invariant OnPath(before, leaves, level - 1, index)
        invariant todo == PathAbove(leaves, level - 1, index)
        invariant updates + todo == updates0 + PathAbove(leaves, 0, leafIndex)
      {
        var parentIndex := index / 2;
        var children := levels[level - 1];
        var leftIndex := parentIndex * 2;
        var rightIndex := leftIndex + 1;
        PathStep(before, leaves, level - 1, index);
        PathAboveStep(leaves, level - 1, index);
        var hash := children[leftIndex].hash;
        if rightIndex < |children| {
          hash := HashPair(children[leftIndex].hash, children[rightIndex].hash);
        }
        var parent := MerkleNode(level, parentIndex, hash);
        var siblingIndex := if index % 2 == 0 then rightIndex else leftIndex;
        if siblingIndex < |children| { updates := updates + [children[siblingIndex]]; }
        levels := levels[level := levels[level][parentIndex := parent]];
        updates := updates + [parent];
        todo := PathAbove(leaves, level, parentIndex);
        index := parentIndex;
        level := level + 1;
      }
      PathEnd(leaves, index);
      TopNode(leaves);
      root := levels[height][0].hash;
    }
  }

  /** Rewriting one leaf changed no other node of this level. */
  ghost predicate OnPath(before: seq<Digest>, after: seq<Digest>, level: nat, index: nat) {
    && |before| == |after| && index < Width(|after|, level)
    && forall i :: 0 <= i < Width(|after|, level) && i != index ==> Row(before, level)[i] == Row(after, level)[i]
  }

  lemma LeafRow(leaves: seq<Digest>, row: seq<MerkleNode>)
    requires |row| == |leaves| && forall i :: 0 <= i < |row| ==> row[i] == MerkleNode(0, i, leaves[i])
    ensures row == RowNodes(leaves, 0)
  {}

  lemma TopNode(leaves: seq<Digest>)
    requires leaves != []
    ensures |RowNodes(leaves, Height(|leaves|))| == 1
    ensures RowNodes(leaves, Height(|leaves|))[0].hash == Root(leaves)
  {
    TopWidth(|leaves|);
  }

  lemma LeafRewritten(before: seq<Digest>, index: nat, hash: Digest)
    requires index < |before|
    ensures |RowNodes(before, 0)| == |before|
    ensures RowNodes(before, 0)[index := MerkleNode(0, index, hash)] == RowNodes(before[index := hash], 0)
  {}

  lemma PathStart(before: seq<Digest>, after: seq<Digest>, index: nat)
    requires |before| == |after| && index < |after| && after == before[index := after[index]]
    ensures OnPath(before, after, 0, index)
  {}

  lemma PathStep(before: seq<Digest>, after: seq<Digest>, level: nat, index: nat)
    requires OnPath(before, after, level, index) && level < Height(|after|)
    ensures OnPath(before, after, level + 1, index / 2)
    ensures 2 * (index / 2) < Width(|after|, level)
    ensures RowNodes(after, level + 1)[index / 2]
         == MerkleNode(level + 1, index / 2, Parent(Row(after, level), index / 2))
    ensures RowNodes(before, level + 1)[index / 2 := RowNodes(after, level + 1)[index / 2]]
      == RowNodes(after, level + 1)
  {
    hide Height, Row, Width;
    WidthStep(|after|, level + 1);
    forall i | 0 <= i < Width(|after|, level + 1) ensures 2 * i < Width(|after|, level)
      && Row(after, level + 1)[i] == Parent(Row(after, level), i)
      && Row(before, level + 1)[i] == Parent(Row(before, level), i)
    {
      RowNodesAt(after, level + 1, i);
      RowNodesAt(before, level + 1, i);
    }
    var row, rewritten := Row(before, level + 1), Row(after, level + 1);
    forall i | 0 <= i < |rewritten| && i != index / 2 ensures row[i] == rewritten[i] {
      assert 2 * i != index && 2 * i + 1 != index;
    }
  }

  lemma PathAboveStep(leaves: seq<Digest>, level: nat, index: nat)
    requires level < Height(|leaves|) && index < Width(|leaves|, level)
    ensures var sibling := if index % 2 == 0 then index + 1 else index - 1;
      && index / 2 < Width(|leaves|, level + 1)
      && PathAbove(leaves, level, index)
         == (if sibling < Width(|leaves|, level) then [RowNodes(leaves, level)[sibling]] else [])
          + [RowNodes(leaves, level + 1)[index / 2]]
          + PathAbove(leaves, level + 1, index / 2)
  {
    hide Row, Height;
  }

  lemma PathEnd(leaves: seq<Digest>, index: nat)
    requires index < Width(|leaves|, Height(|leaves|))
    ensures PathAbove(leaves, Height(|leaves|), index) == []
  {}
}
