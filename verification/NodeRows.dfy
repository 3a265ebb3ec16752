/** The rows in which tree nodes are stored (internal/storage/cassandra/hmf_repo.go,
    internal/storage/cassandra/segment_repo.go): a partition for each tree, a Shard tree's split into buckets. */
module NodeRows {
  import opened Hashing
  import opened Merkle
  import opened NodeStore
  import opened ShardTrees
  import opened ProofTypes
  import opened Requests

  /** A row: its partition, which is a tree and a bucket, and the node's level and index in it. */
  datatype RowKey = RowKey(tree: TreeRef, bucketID: int, level: int, index: int)

  type Rows = map<RowKey, Digest>

  const SHARD_BUCKET_LEVEL := 15

  /** The bucket the writer puts a node in: only Shard trees have more than one. */
  function WriterBucket(tree: TreeRef, level: int, index: int): int {
    if tree.layer != LAYER_SHARD then 0
    else if level < SHARD_BUCKET_LEVEL then index / Pow2(SHARD_BUCKET_LEVEL - level)
    else index * Pow2(level - SHARD_BUCKET_LEVEL)
  }

  function RowFor(ref: NodeRef): RowKey {
    RowKey(ref.tree, WriterBucket(ref.tree, ref.position.level, ref.position.index), ref.position.level,
           ref.position.index)
  }

  /** The row that a request reads for an index. */
  function RowAsked(key: RequestKey, index: int): RowKey {
    RowKey(key.tree, key.bucketID, key.level, index)
  }

  /** A bucket holds the Shard nodes whose first leaf is among its 2^15 leaves. */
  lemma BucketHolds(tree: TreeRef, level: nat, index: nat)
    requires tree.layer == LAYER_SHARD
    ensures var bucket := KeyFor(NodeRef(tree, Position(level, index))).bucketID;
      bucket * 0x8000 <= index * Pow2(level) < (bucket + 1) * 0x8000
  {
    hide Pow2;
    Pow2Of15();
    if level < 15 {
      Pow2Sum(15 - level, level);
      InBucket(index, Pow2(15 - level), Pow2(level));
    } else {
      Pow2Sum(level - 15, 15);
      AtBucket(index, Pow2(level - 15), Pow2(level));
    }
  }

  lemma InBucket(index: nat, d: nat, e: nat)
    requires d > 0 && e > 0 && d * e == 0x8000
    ensures index / d * 0x8000 <= index * e < (index / d + 1) * 0x8000
  {
    var q, r := index / d, index % d;
    assert index == q * d + r;
    assert (q * d + r) * e == q * (d * e) + r * e;
    assert r * e < d * e;
  }

  lemma AtBucket(index: nat, d: nat, e: nat)
    requires e == d * 0x8000
    ensures index * d * 0x8000 == index * e
  {}

  lemma {:induction false} Pow2Sum(a: nat, b: nat)
    ensures Pow2(a + b) == Pow2(a) * Pow2(b) && Pow2(b) > 0
    decreases a
  {
    if a > 0 { Pow2Sum(a - 1, b); }
  }

  lemma Pow2Of15()
    ensures Pow2(15) == 0x8000
  {
    Pow2Sum(5, 5);
    Pow2Sum(10, 5);
  }

  /** A request reads the rows the writer wrote. */
  lemma AskedIsWritten(key: RequestKey, index: int)
    requires KeyFor(RefFor(key, index)) == key
    ensures RowAsked(key, index) == RowFor(RefFor(key, index))
  {}

  // ---- Writing ----

  /** Writes nodes of a tree one after the other. */
  function WriteRows(rows: Rows, tree: TreeRef, nodes: seq<MerkleNode>): Rows
    decreases |nodes|
  {
    if nodes == [] then rows
    else
      var node := nodes[0];
      WriteRows(rows[RowFor(NodeRef(tree, Position(node.level, node.index))) := node.hash], tree, nodes[1..])
  }

  /** The rows hold exactly the nodes of the stores. */
  ghost predicate RowsFor(rows: Rows, stores: map<TreeRef, Store>) {
    forall ref :: RowAgrees(rows, stores, ref)
  }

  ghost predicate RowAgrees(rows: Rows, stores: map<TreeRef, Store>, ref: NodeRef) {
    var stored := ref.tree in stores && ref.position in stores[ref.tree];
    && (RowFor(ref) in rows <==> stored)
    && (stored ==> rows[RowFor(ref)] == stores[ref.tree][ref.position])
  }

  /** Writing a tree's nodes row by row gives the rows of the tree's new store. */
  lemma {:induction false} WrittenRows(rows: Rows, stores: map<TreeRef, Store>, tree: TreeRef, nodes: seq<MerkleNode>)
    requires RowsFor(rows, stores)
    ensures var store := if tree in stores then stores[tree] else map[];
      RowsFor(WriteRows(rows, tree, nodes), stores[tree := Replay(store, nodes)])
    decreases |nodes|
  {
    hide RowAgrees;
    var store := if tree in stores then stores[tree] else map[];
    if nodes == [] {
      var stores' := stores[tree := store];
      forall ref ensures RowAgrees(rows, stores', ref) { SameRow(rows, stores, tree, ref); }
    } else {
      var node := nodes[0];
      var p := Position(node.level, node.index);
      var rows', stores' := rows[RowFor(NodeRef(tree, p)) := node.hash], stores[tree := store[p := node.hash]];
      forall ref ensures RowAgrees(rows', stores', ref) { OneRow(rows, stores, tree, p, node.hash, ref); }
      WrittenRows(rows', stores', tree, nodes[1..]);
      assert stores'[tree := Replay(store[p := node.hash], nodes[1..])] == stores[tree := Replay(store, nodes)];
    }
  }

  lemma SameRow(rows: Rows, stores: map<TreeRef, Store>, tree: TreeRef, ref: NodeRef)
    requires RowsFor(rows, stores)
    ensures RowAgrees(rows, stores[tree := if tree in stores then stores[tree] else map[]], ref)
  {
    assert RowAgrees(rows, stores, ref);
  }

  lemma OneRow(rows: Rows, stores: map<TreeRef, Store>, tree: TreeRef, p: Position, hash: Digest, ref: NodeRef)
    requires RowsFor(rows, stores)
    ensures var store := if tree in stores then stores[tree] else map[];
      RowAgrees(rows[RowFor(NodeRef(tree, p)) := hash], stores[tree := store[p := hash]], ref)
  {
    hide WriterBucket;
    assert RowAgrees(rows, stores, ref);
    assert RowFor(ref) == RowFor(NodeRef(tree, p)) <==> ref == NodeRef(tree, p);
  }
}
