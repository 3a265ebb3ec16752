/** The Shard tree (internal/hmf/shard_tree.go): an append-only tree that keeps only its
    frontier of perfect subtrees. */
module ShardTrees {
  import opened Hashing
  import opened Merkle
  import opened NodeStore

  /** The last node of a row. */
  function LastNode(leaves: seq<Digest>, level: nat): MerkleNode
    requires leaves != []
  {
    WidthAtMost(|leaves|, level);
    var i := Width(|leaves|, level) - 1;
    MerkleNode(level, i, Row(leaves, level)[i])
  }

  /** The last nodes of the rows below `top`. */
  function LastPath(leaves: seq<Digest>, top: nat): seq<MerkleNode>
    requires leaves != []
  {
    if top == 0 then [] else LastPath(leaves, top - 1) + [LastNode(leaves, top - 1)]
  }

  /** The roots of the perfect subtrees of level `level` and higher: one for every 1-bit of
      the number of leaves, the highest first. */
  function Peaks(leaves: seq<Digest>, level: nat): seq<MerkleNode>
    decreases Ancestor(|leaves|, level)
  {
    var m := Ancestor(|leaves|, level);
    CompleteNodes(|leaves|, level);
    if m <= 0 then []
    else if m % 2 == 1 then Peaks(leaves, level + 1) + [MerkleNode(level, m - 1, Row(leaves, level)[m - 1])]
    else Peaks(leaves, level + 1)
  }

  lemma {:induction false} CompleteNodes(n: nat, level: nat)
    ensures 0 <= Ancestor(n, level) <= Width(n, level) <= Ancestor(n, level) + 1
    decreases level
  {
    if level > 0 { CompleteNodes(n, level - 1); }
  }

  class ShardTree {
    const regionID: Text
    const shardID: int
    var root: Digest
    var leafCount: int
    var height: int
    var frontiers: seq<MerkleNode>

    /** The appended segment commitments. */
    ghost var leaves: seq<Digest>

    ghost predicate Valid()
      reads this
    {
      && leafCount == |leaves|
      && frontiers == Peaks(leaves, 0)
      && height == Height(|leaves|)
      && root == if leaves == [] then 0 else Root(leaves)
    }

    lemma Counts()
      requires Valid()
      ensures leafCount == |leaves|
    {}

    constructor (regionID: Text, shardID: int)
      ensures Valid() && leaves == []
      ensures this.regionID == regionID && this.shardID == shardID
    {
      this.regionID, this.shardID := regionID, shardID;
      root, leafCount, height, frontiers := 0, 0, 0, [];
      leaves := [];
    }

    /** Merges the new leaf with the perfect subtrees of equal size. */
    method MergeFrontier(segmentHash: Digest) returns (updates: seq<MerkleNode>)
      requires Valid()
      modifies this`frontiers
      ensures frontiers == Peaks(leaves + [segmentHash], 0) && frontiers != []
      ensures var last := frontiers[|frontiers| - 1];
        Materialized(leaves + [segmentHash], frontiers[..|frontiers| - 1], last, updates)
    {
      hide Row, Width, Height, Root, Ancestor, LastNode, LastPath, Peaks;
      ghost var new_ := leaves + [segmentHash];
      var currNode := MerkleNode(0, leafCount, segmentHash);
      updates := [currNode];
      MergeStart(leaves, segmentHash);
      while |frontiers| > 0 && frontiers[|frontiers| - 1].level == currNode.level
        invariant Merging(leaves, segmentHash, frontiers, currNode, updates)
        decreases |frontiers|
      {
        MergeStep(leaves, segmentHash, frontiers, currNode, updates);
        var left := frontiers[|frontiers| - 1];
        frontiers := frontiers[..|frontiers| - 1];
        currNode := MerkleNode(currNode.level + 1, currNode.index / 2, HashPair(left.hash, currNode.hash));
        updates := updates + [currNode];
      }
      MergeEnd(leaves, segmentHash, frontiers, currNode, updates);
      frontiers := frontiers + [currNode];
      assert frontiers[..|frontiers| - 1] + [currNode] == frontiers;
    }

    /** Walks from the lowest frontier node to the root, promoting and pairing. */
    method MaterializeRootPath(updates0: seq<MerkleNode>, ghost new_: seq<Digest>)
      returns (updates: seq<MerkleNode>, right: MerkleNode)
      requires new_ != [] && frontiers != []
      requires Materialized(new_, frontiers[..|frontiers| - 1], frontiers[|frontiers| - 1], updates0)
      ensures right.level == Height(|new_|) && right.hash == Root(new_)
      ensures updates == LastPath(new_, Height(|new_|) + 1)
    {
      hide Row, Width, Height, Root, Ancestor, LastNode, LastPath, Peaks, Materialized;
      updates, right := updates0, frontiers[|frontiers| - 1];
      var i := |frontiers| - 2;
      while i >= 0
        invariant -1 <= i < |frontiers| - 1
        invariant Materialized(new_, frontiers[..i + 1], right, updates)
      {
        var left := frontiers[i];
        assert frontiers[..i + 1] == frontiers[..i] + [left];
        NotAbove(new_, frontiers[..i], left, right, updates);
        while right.level < left.level
          invariant Materialized(new_, frontiers[..i] + [left], right, updates)
          invariant right.level <= left.level
          decreases left.level - right.level
        {
          Promote(new_, frontiers[..i], left, right, updates);
          right := MerkleNode(right.level + 1, right.index / 2, right.hash);
          updates := updates + [right];
        }
        PairPeak(new_, frontiers[..i], left, right, updates);
        right := MerkleNode(left.level + 1, left.index / 2, HashPair(left.hash, right.hash));
        updates := updates + [right];
        i := i - 1;
      }
      assert frontiers[..i + 1] == [];
      AtRoot(new_, right, updates);
    }

    method Append(segmentHash: Digest) returns (updates: seq<MerkleNode>)
      requires Valid()
      modifies this
      ensures Valid() && leaves == old(leaves) + [segmentHash]
      ensures updates == LastPath(leaves, Height(|leaves|) + 1)
      ensures leafCount == |leaves| && frontiers == Peaks(leaves, 0) && height == Height(|leaves|)
      ensures root == Root(leaves)
    {
      updates := MergeFrontier(segmentHash);
      var shardRoot;
      updates, shardRoot := MaterializeRootPath(updates, leaves + [segmentHash]);
      root := shardRoot.hash;
      leafCount := leafCount + 1;
      height := shardRoot.level;
      leaves := leaves + [segmentHash];
    }
  }

  /** The frontier merge reached level `currNode.level`: every lower bit of the old count is 1. */
  ghost predicate Merging(leaves: seq<Digest>, h: Digest, frontiers: seq<MerkleNode>, currNode: MerkleNode,
                          updates: seq<MerkleNode>) {
    && currNode.level >= 0
    && currNode == LastNode(leaves + [h], currNode.level)
    && frontiers == Peaks(leaves, currNode.level)
    && updates == LastPath(leaves + [h], currNode.level + 1)
    && Ancestor(|leaves| + 1, currNode.level) == Ancestor(|leaves|, currNode.level) + 1
    && Peaks(leaves + [h], 0) == Peaks(leaves + [h], currNode.level)
  }

  /** `right` is the last node of its row; `rest` are the perfect subtrees to its left that are
      not below an earlier last node. */
  ghost predicate Materialized(leaves: seq<Digest>, rest: seq<MerkleNode>, right: MerkleNode, updates: seq<MerkleNode>)
    requires leaves != []
  {
    var n, level := |leaves|, right.level;
    && 0 <= level <= Height(n) && right == LastNode(leaves, level)
    && updates == LastPath(leaves, level + 1)
    && (|| (rest == Peaks(leaves, level) && Width(n, level) == Ancestor(n, level) + 1)
        || (rest == Peaks(leaves, level + 1) && Width(n, level) == Ancestor(n, level) && Ancestor(n, level) % 2 == 1))
  }

  // ---- Rows and appending ----

  /** The row of a tree with one more leaf ends with the new leaf's ancestor. */
  lemma {:induction false} LastIsAncestor(n: nat, level: nat)
    ensures Width(n + 1, level) == Ancestor(n, level) + 1
    decreases level
  {
    if level > 0 { LastIsAncestor(n, level - 1); }
  }

  /** Appending a leaf leaves complete nodes as they are. */
  lemma {:induction false} RowStable(leaves: seq<Digest>, h: Digest, level: nat, i: nat)
    requires i < Ancestor(|leaves|, level)
    ensures i < Width(|leaves|, level) && i < Width(|leaves| + 1, level)
    ensures Row(leaves + [h], level)[i] == Row(leaves, level)[i]
    decreases level
  {
    hide Row, Width;
    CompleteNodes(|leaves|, level);
    LastIsAncestor(|leaves|, level);
    RowBase(leaves);
    RowBase(leaves + [h]);
    if level > 0 {
      CompleteNodes(|leaves|, level - 1);
      LastIsAncestor(|leaves|, level - 1);
      RowStable(leaves, h, level - 1, 2 * i);
      RowStable(leaves, h, level - 1, 2 * i + 1);
      RowStepAt(leaves, level - 1, i);
      RowStepAt(leaves + [h], level - 1, i);
    }
  }

  lemma RowBase(leaves: seq<Digest>)
    ensures Row(leaves, 0) == leaves
  {}

  /** Peaks above a level that the new leaf did not complete stay as they are. */
  lemma {:induction false} PeaksStable(leaves: seq<Digest>, h: Digest, level: nat)
    requires Ancestor(|leaves| + 1, level) == Ancestor(|leaves|, level)
    ensures Peaks(leaves + [h], level) == Peaks(leaves, level)
    decreases Ancestor(|leaves|, level)
  {
    hide Row, Width, Ancestor;
    var m := Ancestor(|leaves|, level);
    CompleteNodes(|leaves|, level);
    AncestorStep(|leaves|, level);
    AncestorStep(|leaves| + 1, level);
    if m > 0 {
      PeaksStable(leaves, h, level + 1);
      if m % 2 == 1 { RowStable(leaves, h, level, m - 1); }
    }
  }

  lemma {:induction false} PeakLevels(leaves: seq<Digest>, level: nat)
    ensures forall k :: 0 <= k < |Peaks(leaves, level)| ==> Peaks(leaves, level)[k].level >= level
    decreases Ancestor(|leaves|, level)
  {
    var m := Ancestor(|leaves|, level);
    if m > 0 { PeakLevels(leaves, level + 1); }
  }

  // ---- Merging the frontier ----

  lemma MergeStart(leaves: seq<Digest>, h: Digest)
    ensures Merging(leaves, h, Peaks(leaves, 0), MerkleNode(0, |leaves|, h), [MerkleNode(0, |leaves|, h)])
  {
    hide Peaks, Height, LastPath, LastNode, Row, Width, Ancestor;
    var first := MerkleNode(0, |leaves|, h);
    var longer := leaves + [h];
    FirstPath(leaves, h);
    FirstLast(leaves, h);
    AncestorBase(|leaves|);
    AncestorBase(|leaves| + 1);
    assert |longer| == |leaves| + 1;
  }

  lemma FirstPath(leaves: seq<Digest>, h: Digest)
    ensures LastPath(leaves + [h], 1) == [MerkleNode(0, |leaves|, h)]
  {
    hide LastPath, LastNode;
    LastPathStep(leaves + [h], 0);
    FirstLast(leaves, h);
  }

  lemma AncestorBase(n: int)
    ensures Ancestor(n, 0) == n
  {}

  lemma FirstLast(leaves: seq<Digest>, h: Digest)
    ensures LastNode(leaves + [h], 0) == MerkleNode(0, |leaves|, h)
  {}

  /** The frontier ends with a node of a level exactly when that bit of the count is 1. */
  lemma LastPeak(leaves: seq<Digest>, level: nat)
    ensures var m, peaks := Ancestor(|leaves|, level), Peaks(leaves, level);
      && 0 <= m <= Width(|leaves|, level)
      && (m % 2 == 1 ==> peaks == Peaks(leaves, level + 1) + [MerkleNode(level, m - 1, Row(leaves, level)[m - 1])])
      && (m % 2 == 0 ==> peaks == Peaks(leaves, level + 1))
      && (m == 0 <==> peaks == [])
      && (m % 2 == 0 ==> forall k :: 0 <= k < |peaks| ==> peaks[k].level > level)
      && (forall k :: 0 <= k < |peaks| ==> peaks[k].level >= level)
    decreases Ancestor(|leaves|, level)
  {
    var m := Ancestor(|leaves|, level);
    CompleteNodes(|leaves|, level);
    PeakLevels(leaves, level);
    PeakLevels(leaves, level + 1);
    if m == 0 {
      AncestorStep(|leaves|, level);
    } else if m % 2 == 0 {
      AncestorStep(|leaves|, level);
      LastPeak(leaves, level + 1);
    }
  }

  lemma AncestorStep(n: int, level: nat)
    ensures Ancestor(n, level + 1) == Ancestor(n, level) / 2
  {}

  lemma RowStepAt(leaves: seq<Digest>, level: nat, parent: nat)
    requires 2 * parent < Width(|leaves|, level)
    ensures parent < Width(|leaves|, level + 1)
    ensures Width(|leaves|, level + 1) == (Width(|leaves|, level) + 1) / 2
    ensures Row(leaves, level + 1)[parent] == Parent(Row(leaves, level), parent)
  {}

  lemma LastPathStep(leaves: seq<Digest>, level: nat)
    requires leaves != []
    ensures LastPath(leaves, level + 1) == LastPath(leaves, level) + [LastNode(leaves, level)]
    ensures LastPath(leaves, 0) == []
  {}

  lemma MergeStep(leaves: seq<Digest>, h: Digest, frontiers: seq<MerkleNode>, currNode: MerkleNode,
                  updates: seq<MerkleNode>)
    requires Merging(leaves, h, frontiers, currNode, updates)
    requires |frontiers| > 0 && frontiers[|frontiers| - 1].level == currNode.level
    ensures var left := frontiers[|frontiers| - 1];
      var parent := MerkleNode(currNode.level + 1, currNode.index / 2, HashPair(left.hash, currNode.hash));
      Merging(leaves, h, frontiers[..|frontiers| - 1], parent, updates + [parent])
  {
    hide Row, Width, Height, Ancestor, Peaks, LastPath;
    var new_, level := leaves + [h], currNode.level;
    var m := Ancestor(|leaves|, level);
    LastPeak(leaves, level);
    LastPeak(new_, level);
    AncestorStep(|leaves|, level);
    AncestorStep(|new_|, level);
    LastIsAncestor(|leaves|, level);
    LastIsAncestor(|leaves|, level + 1);
    RowStable(leaves, h, level, m - 1);
    RowStepAt(new_, level, m / 2);
    LastPathStep(new_, level + 1);
    assert frontiers[..|frontiers| - 1] == Peaks(leaves, level + 1);
  }

  lemma MergeEnd(leaves: seq<Digest>, h: Digest, frontiers: seq<MerkleNode>, currNode: MerkleNode,
                 updates: seq<MerkleNode>)
    requires Merging(leaves, h, frontiers, currNode, updates)
    requires !(|frontiers| > 0 && frontiers[|frontiers| - 1].level == currNode.level)
    ensures frontiers + [currNode] == Peaks(leaves + [h], 0)
    ensures Materialized(leaves + [h], frontiers, currNode, updates)
  {
    hide Row, Height, Ancestor, Peaks, LastPath;
    var new_, level := leaves + [h], currNode.level;
    LastPeak(leaves, level);
    LastPeak(new_, level);
    AncestorStep(|leaves|, level);
    AncestorStep(|new_|, level);
    LastIsAncestor(|leaves|, level);
    PeaksStable(leaves, h, level + 1);
    LevelInTree(|new_|, level);
  }

  /** A level with a complete node is a level of the tree. */
  lemma LevelInTree(n: nat, level: nat)
    requires Ancestor(n, level) > 0
    ensures level <= Height(n)
    decreases level
  {
    if level > 0 {
      LevelInTree(n, level - 1);
      if level - 1 == Height(n) {
        CompleteNodes(n, level - 1);
        TopWidth(n);
      }
    }
  }

  // ---- Materializing the path to the root ----

  lemma NotAbove(leaves: seq<Digest>, rest: seq<MerkleNode>, left: MerkleNode, right: MerkleNode,
                 updates: seq<MerkleNode>)
    requires leaves != [] && Materialized(leaves, rest + [left], right, updates)
    ensures right.level <= left.level
  {
    hide Row, Width, Height, Ancestor, Peaks, LastPath, LastNode;
    LastPeak(leaves, right.level);
    LastPeak(leaves, right.level + 1);
    assert (rest + [left])[|rest|] == left;
  }

  /** Below its left neighbour's level the last node of a row is unpaired. */
  lemma Promote(leaves: seq<Digest>, rest: seq<MerkleNode>, left: MerkleNode, right: MerkleNode,
                updates: seq<MerkleNode>)
    requires leaves != [] && Materialized(leaves, rest + [left], right, updates) && right.level < left.level
    ensures var up := MerkleNode(right.level + 1, right.index / 2, right.hash);
      Materialized(leaves, rest + [left], up, updates + [up])
  {
    hide Row, Width, Height, Ancestor, Peaks, LastPath;
    var n, level := |leaves|, right.level;
    LastPeak(leaves, level);
    LastPeak(leaves, level + 1);
    AncestorStep(n, level);
    WidthAtMost(n, level);
    assert (rest + [left])[|rest|] == left;
    assert Width(n, level) % 2 == 1 && Width(n, level) > 1 by { hide LastNode; }
    AtTop(n, level);
    RowStepAt(leaves, level, right.index / 2);
    LastPathStep(leaves, level + 1);
    assert MerkleNode(level + 1, right.index / 2, right.hash) == LastNode(leaves, level + 1);
    assert rest + [left] == Peaks(leaves, level + 1);
  }

  lemma PairPeak(leaves: seq<Digest>, rest: seq<MerkleNode>, left: MerkleNode, right: MerkleNode,
                 updates: seq<MerkleNode>)
    requires leaves != [] && Materialized(leaves, rest + [left], right, updates) && right.level == left.level
    ensures var up := MerkleNode(left.level + 1, left.index / 2, HashPair(left.hash, right.hash));
      Materialized(leaves, rest, up, updates + [up])
  {
    hide Row, Width, Height, Ancestor, Peaks, LastPath;
    var n, level := |leaves|, right.level;
    LastPeak(leaves, level);
    LastPeak(leaves, level + 1);
    AncestorStep(n, level);
    assert (rest + [left])[|rest|] == left && (rest + [left])[..|rest|] == rest;
    var m := Ancestor(n, level);
    assert m % 2 == 1 && Width(n, level) == m + 1 && rest + [left] == Peaks(leaves, level);
    assert left == MerkleNode(level, m - 1, Row(leaves, level)[m - 1]) && rest == Peaks(leaves, level + 1);
    AtTop(n, level);
    RowStepAt(leaves, level, left.index / 2);
    LastPathStep(leaves, level + 1);
  }

  lemma AtRoot(leaves: seq<Digest>, right: MerkleNode, updates: seq<MerkleNode>)
    requires leaves != [] && Materialized(leaves, [], right, updates)
    ensures right.level == Height(|leaves|) && right.hash == Root(leaves)
    ensures updates == LastPath(leaves, Height(|leaves|) + 1)
  {
    hide Row, Width, Height, Ancestor, Peaks, LastPath;
    var n, level := |leaves|, right.level;
    LastPeak(leaves, level);
    LastPeak(leaves, level + 1);
    AncestorStep(n, level);
    WidthAtMost(n, level);
    AtTop(n, level);
  }

  // ---- What the frontier and the emitted nodes are ----

  function Pow2(k: nat): (r: nat)
    ensures r > 0
  {
    if k == 0 then 1 else 2 * Pow2(k - 1)
  }

  /** The height is the least h with n <= 2^h. */
  lemma {:induction false} HeightIsLeast(n: nat, h: nat)
    ensures n <= Pow2(h) <==> Height(n) <= h
    decreases h
  {
    if h > 0 && n > 1 { HeightIsLeast((n + 1) / 2, h - 1); }
  }

  /** The frontier holds one node for every 1-bit of the count, the root of the rightmost
      complete subtree of that size, in order of strictly decreasing level. */
  lemma FrontierIsBits(leaves: seq<Digest>, level: nat, node: MerkleNode)
    ensures forall i, j :: 0 <= i < j < |Peaks(leaves, 0)| ==> Peaks(leaves, 0)[i].level > Peaks(leaves, 0)[j].level
    ensures node in Peaks(leaves, 0) && node.level == level <==>
      Ancestor(|leaves|, level) % 2 == 1 && 0 < Ancestor(|leaves|, level) <= Width(|leaves|, level)
      && node == MerkleNode(level, Ancestor(|leaves|, level) - 1, Row(leaves, level)[Ancestor(|leaves|, level) - 1])
  {
    PeaksOrdered(leaves, 0);
    CompleteNodes(|leaves|, level);
    PeakAt(leaves, 0, level, node);
  }

  lemma {:induction false} PeaksOrdered(leaves: seq<Digest>, from: nat)
    ensures forall i, j :: 0 <= i < j < |Peaks(leaves, from)| ==>
      Peaks(leaves, from)[i].level > Peaks(leaves, from)[j].level
    decreases Ancestor(|leaves|, from)
  {
    CompleteNodes(|leaves|, from);
    if Ancestor(|leaves|, from) > 0 {
      PeaksOrdered(leaves, from + 1);
      PeakLevels(leaves, from + 1);
    }
  }

  lemma {:induction false} PeakAt(leaves: seq<Digest>, from: nat, level: nat, node: MerkleNode)
    requires from <= level
    ensures 0 <= Ancestor(|leaves|, level) <= Width(|leaves|, level)
    ensures node in Peaks(leaves, from) && node.level == level <==>
      Ancestor(|leaves|, level) % 2 == 1
      && node == MerkleNode(level, Ancestor(|leaves|, level) - 1, Row(leaves, level)[Ancestor(|leaves|, level) - 1])
    decreases level - from
  {
    hide Row, Width, Ancestor, Peaks;
    CompleteNodes(|leaves|, level);
    LastPeak(leaves, from);
    LastPeak(leaves, from + 1);
    if from < level {
      PeakAt(leaves, from + 1, level, node);
    }
  }

  /** Writing the nodes emitted by an append over the full node map of the old tree gives
      the full node map of the new one. */
  lemma AppendedNodesSuffice(leaves: seq<Digest>, h: Digest)
    ensures var new_ := leaves + [h];
      Replay(if leaves == [] then map[] else NodeMap(leaves), LastPath(new_, Height(|new_|) + 1)) == NodeMap(new_)
  {
    hide Replay, NodeAt, LastPath, Row, AllNodes, Emitted;
    var new_ := leaves + [h];
    var store: Store := if leaves == [] then map[] else NodeMap(leaves);
    var updates := LastPath(new_, Height(|new_|) + 1);
    LastPathNodes(new_, Height(|new_|) + 1);
    ReplayNodes(store, new_, updates);
    var after, all := Replay(store, updates), NodeMap(new_);
    forall p ensures (p in after <==> p in all) && (p in after ==> after[p] == all[p]) {
      OldNode(leaves, h, p);
    }
  }

  lemma NothingEmitted(leaves: seq<Digest>)
    ensures AllNodes(leaves, []) && forall p :: !Emitted([], p)
  {}

  lemma LastIsNode(leaves: seq<Digest>, level: nat)
    requires leaves != [] && level <= Height(|leaves|)
    ensures IsNode(leaves, LastNode(leaves, level))
    ensures LastNode(leaves, level).level == level && LastNode(leaves, level).index == Width(|leaves|, level) - 1
  {
    hide Width, Row, Height;
    WidthAtMost(|leaves|, level);
  }

  lemma {:induction false} LastPathNodes(leaves: seq<Digest>, top: nat)
    requires leaves != [] && top <= Height(|leaves|) + 1
    ensures AllNodes(leaves, LastPath(leaves, top))
    ensures forall p :: Emitted(LastPath(leaves, top), p) <==>
      0 <= p.level < top && p.index == Width(|leaves|, p.level) - 1
    decreases top
  {
    hide Width, Row, Height, Emitted, LastPath, LastNode, IsNode;
    LastPathStep(leaves, 0);
    if top == 0 {
      NothingEmitted(leaves);
    } else {
      LastPathNodes(leaves, top - 1);
      var below, last := LastPath(leaves, top - 1), LastNode(leaves, top - 1);
      LastPathStep(leaves, top - 1);
      LastIsNode(leaves, top - 1);
      forall p ensures Emitted(below + [last], p) <==> Emitted(below, p) || p == Position(last.level, last.index) {
        EmittedSnoc(below, last, p);
      }
    }
  }

  lemma EmittedSnoc(a: seq<MerkleNode>, b: MerkleNode, p: Position)
    ensures Emitted(a + [b], p) <==> Emitted(a, p) || p == Position(b.level, b.index)
  {
    if Emitted(a, p) {
      var k :| 0 <= k < |a| && At(a, k) == p;
      assert At(a + [b], k) == p;
    }
    if p == Position(b.level, b.index) { assert At(a + [b], |a|) == p; }
    if Emitted(a + [b], p) {
      var k :| 0 <= k < |a| + 1 && At(a + [b], k) == p;
      if k < |a| { assert At(a, k) == p; }
    }
  }

  /** A position of the new tree is on the path of the new leaf, or held the same node before. */
  lemma OldNode(leaves: seq<Digest>, h: Digest, p: Position)
    ensures InTree(|leaves| + 1, p) <==>
      (0 <= p.level <= Height(|leaves| + 1) && p.index == Width(|leaves| + 1, p.level) - 1)
      || (leaves != [] && InTree(|leaves|, p))
    ensures leaves != [] && InTree(|leaves|, p) && p.index != Width(|leaves| + 1, p.level) - 1 ==>
      NodeAt(leaves + [h], p) == NodeAt(leaves, p)
  {
    var n := |leaves|;
    if p.level >= 0 {
      CompleteNodes(n, p.level);
      LastIsAncestor(n, p.level);
      HeightGrows(n);
      if 0 <= p.index < Ancestor(n, p.level) {
        RowStable(leaves, h, p.level, p.index);
        LevelInTree(n, p.level);
      }
    }
  }

  lemma HeightGrows(n: nat)
    ensures Height(n) <= Height(n + 1)
  {
    HeightIsLeast(n + 1, Height(n + 1));
    HeightIsLeast(n, Height(n + 1));
  }
}
