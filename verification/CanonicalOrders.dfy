/** The canonical orders of a proof's parts, field by field (internal/hpp/grouping.go:30-72,
    internal/hpp/planner.go:230-268, internal/storage/cassandra/hpp_reader.go:238-257). */
module CanonicalOrders {
  import opened ProofTypes
  import opened Planner
  import opened Requests
  import opened ProofBuilding

  /** Addresses: by region, shard, segment and leaf. */
  lemma AddressFields(a: PhysicalAddress, b: PhysicalAddress)
    ensures TextLess(a.regionID, b.regionID) ==> AddressLess(a, b)
    ensures a.regionID == b.regionID && a.shardID < b.shardID ==> AddressLess(a, b)
    ensures SegmentOf(a) == SegmentOf(b) && a.leafID < b.leafID ==> AddressLess(a, b)
    ensures a.regionID == b.regionID && a.shardID == b.shardID && a.segmentID < b.segmentID ==> AddressLess(a, b)
    ensures AddressLess(a, b) ==> !AddressLess(b, a)
  {
    hide TextLess;
    TextOrder();
  }

  /** Trees: by layer, region, shard and segment. */
  lemma TreeFields(a: TreeRef, b: TreeRef)
    ensures a.layer < b.layer ==> TreeRefLess(a, b)
    ensures a.layer == b.layer && TextLess(a.regionID, b.regionID) ==> TreeRefLess(a, b)
    ensures a.layer == b.layer && a.regionID == b.regionID && a.shardID < b.shardID ==> TreeRefLess(a, b)
    ensures a.layer == b.layer && a.regionID == b.regionID && a.shardID == b.shardID && a.segmentID < b.segmentID ==>
      TreeRefLess(a, b)
    ensures TreeRefLess(a, b) ==> !TreeRefLess(b, a)
  {
    hide TextLess;
    TextOrder();
  }

  /** Nodes: by tree, level and index. */
  lemma NodeFields(a: NodeRef, b: NodeRef)
    ensures TreeRefLess(a.tree, b.tree) ==> RefLess(a, b)
    ensures a.tree == b.tree && a.position.level < b.position.level ==> RefLess(a, b)
    ensures a.tree == b.tree && a.position.level == b.position.level && a.position.index < b.position.index ==>
      RefLess(a, b)
    ensures RefLess(a, b) ==> !RefLess(b, a)
  {
    TreeFields(a.tree, b.tree);
  }

  /** Links: by parent and the child's index in it. */
  lemma LinkFields(a: ParentLink, b: ParentLink)
    ensures TreeRefLess(a.parent, b.parent) ==> LinkLess(a, b)
    ensures a.parent == b.parent && a.parentLeafIndex < b.parentLeafIndex ==> LinkLess(a, b)
    ensures LinkLess(a, b) ==> !LinkLess(b, a)
  {
    TreeFields(a.parent, b.parent);
    TreeFields(a.child, b.child);
  }

  /** Requests: by tree, bucket and level. */
  lemma RequestFields(a: RequestKey, b: RequestKey)
    ensures TreeRefLess(a.tree, b.tree) ==> Requests.KeyLess(a, b)
    ensures a.tree == b.tree && a.bucketID < b.bucketID ==> Requests.KeyLess(a, b)
    ensures a.tree == b.tree && a.bucketID == b.bucketID && a.level < b.level ==> Requests.KeyLess(a, b)
    ensures Requests.KeyLess(a, b) ==> !Requests.KeyLess(b, a)
  {
    TreeFields(a.tree, b.tree);
  }
}
