/** Persisted nodes: a store of node hashes, overwritten by the nodes a tree emits. */
module NodeStore {
  import opened Hashing
  import opened Merkle

  datatype MerkleNode = MerkleNode(level: int, index: int, hash: Digest)

  type Store = map<Position, Digest>

  /** Writes the emitted nodes in order, the last write to a position winning. */
  function Replay(store: Store, updates: seq<MerkleNode>): Store
    decreases |updates|
  {
    if updates == [] then store
    else
      var node := updates[0];
      Replay(store[Position(node.level, node.index) := node.hash], updates[1..])
  }

  function RowNodes(leaves: seq<Digest>, level: nat): (r: seq<MerkleNode>)
    ensures |r| == Width(|leaves|, level)
    ensures forall i :: 0 <= i < |r| ==> r[i] == MerkleNode(level, i, Row(leaves, level)[i])
  {
    var row := Row(leaves, level);
    seq(|row|, i requires 0 <= i < |row| => MerkleNode(level, i, row[i]))
  }

  /** The nodes of the levels below `top`, level by level. */
  function NodesBelow(leaves: seq<Digest>, top: nat): seq<MerkleNode> {
    if top == 0 then [] else NodesBelow(leaves, top - 1) + RowNodes(leaves, top - 1)
  }

  predicate IsNode(leaves: seq<Digest>, node: MerkleNode) {
    var p := Position(node.level, node.index);
    InTree(|leaves|, p) && node.hash == NodeAt(leaves, p)
  }

  /** Wherever the store is defined it holds the tree's own nodes. */
  ghost predicate Agrees(store: Store, leaves: seq<Digest>) {
    forall p :: p in store ==> InTree(|leaves|, p) && store[p] == NodeAt(leaves, p)
  }

  predicate Emitted(updates: seq<MerkleNode>, p: Position) {
    exists k :: 0 <= k < |updates| && At(updates, k) == p
  }

  function At(updates: seq<MerkleNode>, k: int): Position
    requires 0 <= k < |updates|
  {
    Position(updates[k].level, updates[k].index)
  }

  ghost predicate AllNodes(leaves: seq<Digest>, updates: seq<MerkleNode>) {
    forall k :: 0 <= k < |updates| ==> IsNode(leaves, updates[k])
  }

  /** Replaying nodes of a tree keeps what they do not touch and writes the tree's values elsewhere. */
  lemma {:induction false} ReplayNodes(store: Store, leaves: seq<Digest>, updates: seq<MerkleNode>)
    requires AllNodes(leaves, updates)
    ensures var after := Replay(store, updates);
      && (forall p :: p in after <==> p in store || Emitted(updates, p))
      && (forall p :: Emitted(updates, p) ==> InTree(|leaves|, p) && after[p] == NodeAt(leaves, p))
      && (forall p :: p in store && !Emitted(updates, p) ==> after[p] == store[p])
    decreases |updates|
  {
    if updates != [] {
      var node, rest := updates[0], updates[1..];
      var p0 := Position(node.level, node.index);
      assert IsNode(leaves, node);
      assert AllNodes(leaves, rest);
      ReplayNodes(store[p0 := node.hash], leaves, rest);
      forall p ensures Emitted(updates, p) <==> p == p0 || Emitted(rest, p) {
        EmittedCons(updates, p);
      }
    }
  }

  lemma EmittedCons(updates: seq<MerkleNode>, p: Position)
    requires updates != []
    ensures Emitted(updates, p) <==> p == At(updates, 0) || Emitted(updates[1..], p)
  {
    if Emitted(updates[1..], p) {
      var k :| 0 <= k < |updates| - 1 && At(updates[1..], k) == p;
      assert At(updates, k + 1) == p;
    }
    if Emitted(updates, p) {
      var k :| 0 <= k < |updates| && At(updates, k) == p;
      if k > 0 { assert At(updates[1..], k - 1) == p; }
    }
  }

  /** A store that agrees with a tree agrees with the changed tree after the emitted nodes
      are written, when every stored node that changed was emitted. */
  lemma ReplayAgrees(store: Store, before: seq<Digest>, after: seq<Digest>, updates: seq<MerkleNode>)
    requires Agrees(store, before) && AllNodes(after, updates)
    requires forall p :: InTree(|before|, p) && !Emitted(updates, p) ==>
      InTree(|after|, p) && NodeAt(after, p) == NodeAt(before, p)
    ensures Agrees(Replay(store, updates), after)
    ensures forall p :: p in Replay(store, updates) <==> p in store || Emitted(updates, p)
  {
    hide InTree, NodeAt, Emitted, AllNodes;
    ReplayNodes(store, after, updates);
  }
}
