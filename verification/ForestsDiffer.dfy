/** Forests with equal roots are equal as far as their sizes go, or the hash collides. */
module ForestsDiffer {
  import opened Hashing
  import opened Merkle
  import opened ProofTypes
  import opened Forests
  import opened ForestTrees

  // ---- One tree ----

  /** Two trees of one size with the same root have the same leaves, or the hash collides. */
  lemma SameRootSameLeaves(a: seq<Digest>, b: seq<Digest>)
    requires |a| == |b| > 0 && Root(a) == Root(b)
    ensures a == b || Collide(TreePreimages(a), TreePreimages(b))
  {
    hide Row, Width, Height, Collide, TreePreimages;
    var top := Height(|a|);
    TopWidth(|a|);
    assert Row(a, top) == [Root(a)] && Row(b, top) == [Root(b)];
    SameRows(a, b, top);
  }

  lemma {:induction false} SameRows(a: seq<Digest>, b: seq<Digest>, level: nat)
    requires |a| == |b| > 0 && level <= Height(|a|) && Row(a, level) == Row(b, level)
    ensures a == b || Collide(TreePreimages(a), TreePreimages(b))
    decreases level
  {
    hide Width, Height, Collide, TreePreimages;
    if level > 0 && !Collide(TreePreimages(a), TreePreimages(b)) {
      SameRowBelow(a, b, level - 1);
      SameRows(a, b, level - 1);
    }
  }

  lemma SameRowBelow(a: seq<Digest>, b: seq<Digest>, level: nat)
    requires |a| == |b| > 0 && level < Height(|a|) && Row(a, level + 1) == Row(b, level + 1)
    requires !Collide(TreePreimages(a), TreePreimages(b))
    ensures Row(a, level) == Row(b, level)
  {
    hide Width, Height, Collide, TreePreimages, Row;
    forall i | 0 <= i < |Row(a, level)| ensures Row(a, level)[i] == Row(b, level)[i] {
      RowAbove(a, level, i / 2);
      SameChild(a, b, level, i);
    }
  }

  /** Two trees of one size with the same node have the same leaves below it, or the hash collides. */
  lemma {:induction false} SameNodeSameLeaf(a: seq<Digest>, b: seq<Digest>, level: nat, leaf: nat)
    requires |a| == |b| && leaf < |a| && level <= Height(|a|) && 0 <= Ancestor(leaf, level) < Width(|a|, level)
    requires Row(a, level)[Ancestor(leaf, level)] == Row(b, level)[Ancestor(leaf, level)]
    ensures a[leaf] == b[leaf] || Collide(TreePreimages(a), TreePreimages(b))
    decreases level
  {
    hide Height, Collide, TreePreimages, Positions, ParentRow;
    if level > 0 && !Collide(TreePreimages(a), TreePreimages(b)) {
      AncestorInRange(|a|, leaf, level - 1);
      SameChild(a, b, level - 1, Ancestor(leaf, level - 1));
      SameNodeSameLeaf(a, b, level - 1, leaf);
    }
  }

  /** Equal parents have equal children. */
  lemma SameChild(a: seq<Digest>, b: seq<Digest>, level: nat, i: nat)
    requires |a| == |b| > 0 && level < Height(|a|) && i < Width(|a|, level) && i / 2 < Width(|a|, level + 1)
    requires Row(a, level + 1)[i / 2] == Row(b, level + 1)[i / 2]
    requires !Collide(TreePreimages(a), TreePreimages(b))
    ensures Row(a, level)[i] == Row(b, level)[i]
  {
    hide Height, Width, Row, Collide, TreePreimages, Positions;
    var parent := i / 2;
    RowAbove(a, level, parent);
    RowAbove(b, level, parent);
    if 2 * parent + 1 < Width(|a|, level) {
      var p := Position(level + 1, parent);
      PairHashed(a, p);
      PairHashed(b, p);
      NoCollision(TreePreimages(a), TreePreimages(b), TreePair(a, p), TreePair(b, p));
    }
  }

  lemma RowAbove(leaves: seq<Digest>, level: nat, parent: nat)
    requires 2 * parent < Width(|leaves|, level)
    ensures parent < Width(|leaves|, level + 1) && Row(leaves, level + 1)[parent] == Parent(Row(leaves, level), parent)
  {}

  lemma PairHashed(leaves: seq<Digest>, p: Position)
    requires HasTwoChildren(|leaves|, p)
    ensures TreePair(leaves, p) in TreePreimages(leaves)
  {
    hide Height, Width, Row;
  }

  lemma NoCollision(a: set<Preimage>, b: set<Preimage>, p: Preimage, q: Preimage)
    requires !Collide(a, b) && p in a && q in b && H(p) == H(q)
    ensures p == q
  {}

  // ---- Forests ----

  lemma CollideWithin(a: set<Preimage>, b: set<Preimage>, a': set<Preimage>, b': set<Preimage>)
    requires Within(a, a') && Within(b, b') && Collide(a, b)
    ensures Collide(a', b')
  {}

  /** A tree with the same commitment in two forests has the same leaves, unless the hash collides. */
  lemma SameTree(f: Forest, c: Contents, f': Forest, c': Contents, t: TreeRef)
    requires Stored(f, c) && Stored(f', c') && HasTree(f, t) && HasTree(f', t)
    requires H(TreeCommitted(f, c, t)) == H(TreeCommitted(f', c', t))
    requires !Collide(ForestPreimages(f, c), ForestPreimages(f', c'))
    ensures LeavesOf(f, c, t) == LeavesOf(f', c', t)
  {
    hide WellFormed, Backed, HasTree, LeavesOf, ForestPreimages, Collide, TreePreimages, Root;
    TreeHashed(f, c, t);
    TreeHashed(f', c', t);
    var leaves, leaves' := LeavesOf(f, c, t), LeavesOf(f', c', t);
    NoCollision(ForestPreimages(f, c), ForestPreimages(f', c'), TreeCommitted(f, c, t), TreeCommitted(f', c', t));
    if leaves != [] {
      SameRootSameLeaves(leaves, leaves');
      if Collide(TreePreimages(leaves), TreePreimages(leaves')) {
        CollideWithin(TreePreimages(leaves), TreePreimages(leaves'), ForestPreimages(f, c), ForestPreimages(f', c'));
      }
    }
  }

  /** A leaf of an upper tree that is the same in two forests commits to the same tree below. */
  lemma SameBelow(f: Forest, c: Contents, f': Forest, c': Contents, t: TreeRef, i: nat, child: TreeRef)
    requires Stored(f, c) && Stored(f', c') && HasTree(f, t) && HasTree(f', t) && t.layer != LAYER_SEGMENT
    requires i < |LeavesOf(f, c, t)| && i < |LeavesOf(f', c', t)| && LeavesOf(f, c, t)[i] == LeavesOf(f', c', t)[i]
    requires ChildAt(f, t, i) == child == ChildAt(f', t, i) && !Collide(ForestPreimages(f, c), ForestPreimages(f', c'))
    ensures HasTree(f, child) && HasTree(f', child) && LeavesOf(f, c, child) == LeavesOf(f', c', child)
  {
    hide WellFormed, Backed, HasTree, LeavesOf, ForestPreimages, Collide, ChildAt;
    LeafIsChild(f, c, t, i);
    LeafIsChild(f', c', t, i);
    SameTree(f, c, f', c', child);
  }

  /** Forests of the same regions and shards with equal roots have the same Shard leaves, or the hash collides. */
  lemma SameRootSameShards(f: Forest, c: Contents, f': Forest, c': Contents, key: ShardKey)
    requires Stored(f, c) && Stored(f', c') && f'.regionIDs == f.regionIDs && f'.numShards == f.numShards
    requires key in f.segments
    requires ForestRoot(f) == ForestRoot(f')
    ensures key in f'.segments
    ensures ShardLeaves(f, key) == ShardLeaves(f', key) || Collide(ForestPreimages(f, c), ForestPreimages(f', c'))
  {
    hide Backed, ForestPreimages, Collide, GlobalLeaves, RegionLeaves, ShardLeaves, ForestRoot;
    GlobalRootIs(f, c);
    GlobalRootIs(f', c');
    assert HasShard(f, key);
    if !Collide(ForestPreimages(f, c), ForestPreimages(f', c')) {
      SameTree(f, c, f', c', GLOBAL_TREE);
      var i := RegionIndex(f.regionIDs, key.regionID);
      RegionBelow(f, c, f', c', i);
      ShardBelow(f, c, f', c', key);
    }
  }

  lemma RegionBelow(f: Forest, c: Contents, f': Forest, c': Contents, i: nat)
    requires Stored(f, c) && Stored(f', c') && f'.regionIDs == f.regionIDs && i < |f.regionIDs|
    requires HasTree(f, GLOBAL_TREE) && HasTree(f', GLOBAL_TREE)
    requires LeavesOf(f, c, GLOBAL_TREE) == LeavesOf(f', c', GLOBAL_TREE)
    requires !Collide(ForestPreimages(f, c), ForestPreimages(f', c'))
    ensures var t := RegionTree(f.regionIDs[i]);
      HasTree(f, t) && HasTree(f', t) && LeavesOf(f, c, t) == LeavesOf(f', c', t)
  {
    hide Backed, ForestPreimages, Collide, WellFormed, HasTree;
    SameBelow(f, c, f', c', GLOBAL_TREE, i, RegionTree(f.regionIDs[i]));
  }

  lemma ShardBelow(f: Forest, c: Contents, f': Forest, c': Contents, key: ShardKey)
    requires Stored(f, c) && Stored(f', c') && key in f.segments && key in f'.segments && 0 <= key.shardID < f.numShards
    requires key.regionID in f.regionIDs
    requires var t := RegionTree(key.regionID);
      HasTree(f, t) && HasTree(f', t) && LeavesOf(f, c, t) == LeavesOf(f', c', t)
    requires !Collide(ForestPreimages(f, c), ForestPreimages(f', c'))
    ensures ShardLeaves(f, key) == ShardLeaves(f', key)
  {
    hide Backed, ForestPreimages, Collide, WellFormed, ShardLeaves;
    SameBelow(f, c, f', c', RegionTree(key.regionID), key.shardID, ShardTree(key.regionID, key.shardID));
    assert KeyOf(ShardTree(key.regionID, key.shardID)) == key;
  }
}
