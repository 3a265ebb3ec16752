/** The data a proof consists of (internal/hpp/plan.go) and the orders it is kept in. */
module ProofTypes {
  import opened Hashing
  import opened Merkle
  import opened Sorting

  /** Tree layers; a layer read from outside can be any number. */
  const LAYER_SEGMENT := 1
  const LAYER_SHARD := 2
  const LAYER_REGION := 3
  const LAYER_GLOBAL := 4

  datatype TreeRef = TreeRef(layer: int, regionID: Text, shardID: int, segmentID: int)

  datatype PhysicalAddress = PhysicalAddress(regionID: Text, shardID: int, segmentID: int, leafID: int)

  datatype RequestedLeaf = RequestedLeaf(address: PhysicalAddress, hash: Digest)

  datatype NodeRef = NodeRef(tree: TreeRef, position: Position)

  datatype ProofNode = ProofNode(ref: NodeRef, hash: Digest)

  datatype TreePlan = TreePlan(tree: TreeRef, leafCount: int, targets: seq<int>, required: seq<Position>)

  datatype ParentLink = ParentLink(child: TreeRef, parent: TreeRef, parentLeafIndex: int)

  function SegmentTree(regionID: Text, shardID: int, segmentID: int): TreeRef {
    TreeRef(LAYER_SEGMENT, regionID, shardID, segmentID)
  }

  function ShardTree(regionID: Text, shardID: int): TreeRef {
    TreeRef(LAYER_SHARD, regionID, shardID, 0)
  }

  function RegionTree(regionID: Text): TreeRef {
    TreeRef(LAYER_REGION, regionID, 0, 0)
  }

  const GLOBAL_TREE := TreeRef(LAYER_GLOBAL, [], 0, 0)

  /** The Segment tree that holds an address. */
  function SegmentOf(a: PhysicalAddress): TreeRef {
    SegmentTree(a.regionID, a.shardID, a.segmentID)
  }

  predicate IntLess(a: int, b: int) { a < b }

  /** Canonical order of positions in a plan: by level, then by index. */
  predicate PositionLess(a: Position, b: Position) {
    a.level < b.level || (a.level == b.level && a.index < b.index)
  }

  lemma IntOrder()
    ensures StrictOrder(IntLess)
  {}

  lemma PositionOrder()
    ensures StrictOrder(PositionLess)
  {}

  /** Bytewise order of Go strings. */
  predicate TextLess(a: Text, b: Text) {
    if b == [] then false
    else if a == [] then true
    else a[0] < b[0] || (a[0] == b[0] && TextLess(a[1..], b[1..]))
  }

  /** A text is less than another if it is a proper prefix, or has the smaller byte where they first differ. */
  lemma {:induction false} TextLessIs(a: Text, b: Text, n: nat)
    requires n <= |a| && n < |b| && a[..n] == b[..n] && (n < |a| ==> a[n] != b[n])
    ensures TextLess(a, b) <==> n == |a| || a[n] < b[n]
    decreases n
  {
    if n > 0 {
      assert a[0] == a[..n][0] && b[0] == b[..n][0];
      assert a[1..][..n - 1] == a[..n][1..] && b[1..][..n - 1] == b[..n][1..];
      TextLessIs(a[1..], b[1..], n - 1);
    }
  }

  lemma {:induction false} TextTotal(a: Text, b: Text)
    ensures a == b || TextLess(a, b) || TextLess(b, a)
    decreases |a|
  {
    if a != [] && b != [] {
      TextTotal(a[1..], b[1..]);
      if a[0] == b[0] && a[1..] == b[1..] { assert a == [a[0]] + a[1..] == [b[0]] + b[1..] == b; }
    }
  }

  lemma {:induction false} TextIrreflexive(a: Text)
    ensures !TextLess(a, a)
    decreases |a|
  {
    if a != [] { TextIrreflexive(a[1..]); }
  }

  lemma {:induction false} TextTransitive(a: Text, b: Text, c: Text)
    requires TextLess(a, b) && TextLess(b, c)
    ensures TextLess(a, c)
    decreases |a|
  {
    if a != [] && a[0] == b[0] == c[0] { TextTransitive(a[1..], b[1..], c[1..]); }
  }

  predicate TreeRefLess(a: TreeRef, b: TreeRef) {
    if a.layer != b.layer then a.layer < b.layer
    else if a.regionID != b.regionID then TextLess(a.regionID, b.regionID)
    else if a.shardID != b.shardID then a.shardID < b.shardID
    else a.segmentID < b.segmentID
  }

  predicate AddressLess(a: PhysicalAddress, b: PhysicalAddress) {
    if a.regionID != b.regionID then TextLess(a.regionID, b.regionID)
    else if a.shardID != b.shardID then a.shardID < b.shardID
    else if a.segmentID != b.segmentID then a.segmentID < b.segmentID
    else a.leafID < b.leafID
  }

  lemma TextOrder()
    ensures StrictOrder(TextLess)
  {
    forall x: Text ensures !TextLess(x, x) { TextIrreflexive(x); }
    forall x: Text, y: Text ensures x == y || TextLess(x, y) || TextLess(y, x) { TextTotal(x, y); }
    forall x: Text, y: Text, z: Text | TextLess(x, y) && TextLess(y, z) ensures TextLess(x, z) {
      TextTransitive(x, y, z);
    }
  }

  lemma TreeRefOrder()
    ensures StrictOrder(TreeRefLess)
  {
    forall x: TreeRef, y: TreeRef ensures x == y || TreeRefLess(x, y) || TreeRefLess(y, x) {
      TextTotal(x.regionID, y.regionID);
    }
    forall x: TreeRef, y: TreeRef, z: TreeRef | TreeRefLess(x, y) && TreeRefLess(y, z) ensures TreeRefLess(x, z) {
      TreeRefTransitive(x, y, z);
    }
  }

  lemma TreeRefTransitive(x: TreeRef, y: TreeRef, z: TreeRef)
    requires TreeRefLess(x, y) && TreeRefLess(y, z)
    ensures TreeRefLess(x, z)
  {
    TextOrder();
  }

  lemma AddressOrder()
    ensures StrictOrder(AddressLess)
  {
    forall x: PhysicalAddress, y: PhysicalAddress ensures x == y || AddressLess(x, y) || AddressLess(y, x) {
      TextTotal(x.regionID, y.regionID);
    }
    forall x: PhysicalAddress, y: PhysicalAddress, z: PhysicalAddress | AddressLess(x, y) && AddressLess(y, z)
      ensures AddressLess(x, z)
    {
      AddressTransitive(x, y, z);
    }
  }

  lemma AddressTransitive(x: PhysicalAddress, y: PhysicalAddress, z: PhysicalAddress)
    requires AddressLess(x, y) && AddressLess(y, z)
    ensures AddressLess(x, z)
  {
    TextOrder();
  }
}
