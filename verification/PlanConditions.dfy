/** When a list of addresses can be planned, address by address (internal/hpp/planner.go:14-149). */
module PlanConditions {
  import opened ProofTypes
  import opened Planner

  function ShardOf(a: PhysicalAddress): TreeRef {
    ShardTree(a.regionID, a.shardID)
  }

  function RegionOf(a: PhysicalAddress): TreeRef {
    RegionTree(a.regionID)
  }

  /** The metadata knows the address's segment, which is sealed and has the leaf, its shard and its region, and each of
      them lies within the tree above it. */
  predicate Covered(meta: HierarchyMetadata, a: PhysicalAddress) {
    var trees := meta.trees;
    && SegmentOf(a) in trees && trees[SegmentOf(a)].sealed && 0 <= a.leafID < trees[SegmentOf(a)].leafCount
    && ShardOf(a) in trees && 0 <= trees[SegmentOf(a)].parentLeafIndex < trees[ShardOf(a)].leafCount
    && RegionOf(a) in trees && 0 <= trees[ShardOf(a)].parentLeafIndex < trees[RegionOf(a)].leafCount
    && 0 <= trees[RegionOf(a)].parentLeafIndex < meta.globalLeafCount
  }

  /** Different segments of a shard, shards of a region and regions have different positions. */
  predicate Apart(meta: HierarchyMetadata, a: PhysicalAddress, b: PhysicalAddress)
    requires Covered(meta, a) && Covered(meta, b)
  {
    var trees := meta.trees;
    && (ShardOf(a) == ShardOf(b) && trees[SegmentOf(a)].parentLeafIndex == trees[SegmentOf(b)].parentLeafIndex ==>
          SegmentOf(a) == SegmentOf(b))
    && (RegionOf(a) == RegionOf(b) && trees[ShardOf(a)].parentLeafIndex == trees[ShardOf(b)].parentLeafIndex ==>
          ShardOf(a) == ShardOf(b))
    && (trees[RegionOf(a)].parentLeafIndex == trees[RegionOf(b)].parentLeafIndex ==> RegionOf(a) == RegionOf(b))
  }

  /** The trees above the addresses, layer by layer. */
  lemma LayersAre(addresses: seq<PhysicalAddress>)
    ensures PlannedAt(addresses, LAYER_SEGMENT) == set a | a in addresses :: SegmentOf(a)
    ensures PlannedAt(addresses, LAYER_SHARD) == set a | a in addresses :: ShardOf(a)
    ensures PlannedAt(addresses, LAYER_REGION) == set a | a in addresses :: RegionOf(a)
    ensures PlannedAt(addresses, LAYER_GLOBAL) == set a | a in addresses :: GLOBAL_TREE
  {
    hide PlannedAt;
    Bottom(addresses);
    StepUp(addresses, LAYER_SHARD);
    Above(addresses, SegmentOf, ShardOf);
    StepUp(addresses, LAYER_REGION);
    Above(addresses, ShardOf, RegionOf);
    StepUp(addresses, LAYER_GLOBAL);
    Above(addresses, RegionOf, GlobalOf);
    assert (set a | a in addresses :: GlobalOf(a)) == set a | a in addresses :: GLOBAL_TREE;
  }

  function GlobalOf(a: PhysicalAddress): TreeRef {
    GLOBAL_TREE
  }

  lemma Bottom(addresses: seq<PhysicalAddress>)
    ensures PlannedAt(addresses, LAYER_SEGMENT) == set a | a in addresses :: SegmentOf(a)
  {}

  lemma StepUp(addresses: seq<PhysicalAddress>, layer: int)
    requires layer > LAYER_SEGMENT
    ensures PlannedAt(addresses, layer) == set t | t in PlannedAt(addresses, layer - 1) :: ParentTree(t)
  {}

  lemma Above(addresses: seq<PhysicalAddress>, below: PhysicalAddress -> TreeRef, above: PhysicalAddress -> TreeRef)
    requires forall a :: ParentTree(below(a)) == above(a)
    ensures (set t | t in (set a | a in addresses :: below(a)) :: ParentTree(t)) == set a | a in addresses :: above(a)
  {
    hide ParentTree;
    var lower := set a | a in addresses :: below(a);
    forall a | a in addresses ensures above(a) in set t | t in lower :: ParentTree(t) { assert below(a) in lower; }
  }

  lemma PlannedAre(addresses: seq<PhysicalAddress>, t: TreeRef)
    ensures t in Planned(addresses) <==> exists a :: a in addresses && IsAbove(t, a)
  {
    hide PlannedAt, Planned;
    LayersAre(addresses);
    if t in Planned(addresses) {
      assert t in PlannedAt(addresses, t.layer);
      if t.layer == LAYER_SEGMENT { var a :| a in addresses && t == SegmentOf(a); assert IsAbove(t, a); }
      else if t.layer == LAYER_SHARD { var a :| a in addresses && t == ShardOf(a); assert IsAbove(t, a); }
      else if t.layer == LAYER_REGION { var a :| a in addresses && t == RegionOf(a); assert IsAbove(t, a); }
      else { var a :| a in addresses && t == GLOBAL_TREE; assert IsAbove(t, a); }
    }
  }

  predicate IsAbove(t: TreeRef, a: PhysicalAddress) {
    t == SegmentOf(a) || t == ShardOf(a) || t == RegionOf(a) || t == GLOBAL_TREE
  }

  lemma TargetsAre(addresses: seq<PhysicalAddress>, meta: HierarchyMetadata, a: PhysicalAddress)
    requires a in addresses
    ensures a.leafID in PlannedTargets(addresses, meta, SegmentOf(a))
    ensures SlotFor(meta, SegmentOf(a)).index in PlannedTargets(addresses, meta, ShardOf(a))
    ensures SlotFor(meta, ShardOf(a)).index in PlannedTargets(addresses, meta, RegionOf(a))
    ensures SlotFor(meta, RegionOf(a)).index in PlannedTargets(addresses, meta, GLOBAL_TREE)
  {
    hide PlannedAt, SlotFor;
    LayersAre(addresses);
    assert SegmentOf(a) in PlannedAt(addresses, LAYER_SEGMENT) && ParentTree(SegmentOf(a)) == ShardOf(a);
    assert ShardOf(a) in PlannedAt(addresses, LAYER_SHARD) && ParentTree(ShardOf(a)) == RegionOf(a);
    assert RegionOf(a) in PlannedAt(addresses, LAYER_REGION) && ParentTree(RegionOf(a)) == GLOBAL_TREE;
  }

  lemma PlannableCovers(addresses: seq<PhysicalAddress>, meta: HierarchyMetadata, a: PhysicalAddress)
    requires Plannable(addresses, meta) && a in addresses
    ensures Covered(meta, a)
  {
    hide Planned, PlannedTargets, SameSlot;
    TargetsAre(addresses, meta, a);
    AllAbove(addresses, a);
    assert TreePlannable(addresses, meta, SegmentOf(a)) && TreePlannable(addresses, meta, ShardOf(a));
    assert TreePlannable(addresses, meta, RegionOf(a)) && TreePlannable(addresses, meta, GLOBAL_TREE);
  }

  lemma AllAbove(addresses: seq<PhysicalAddress>, a: PhysicalAddress)
    requires a in addresses
    ensures SegmentOf(a) in Planned(addresses) && ShardOf(a) in Planned(addresses)
    ensures RegionOf(a) in Planned(addresses) && GLOBAL_TREE in Planned(addresses)
  {
    hide Planned;
    assert IsAbove(SegmentOf(a), a) && IsAbove(ShardOf(a), a) && IsAbove(RegionOf(a), a) && IsAbove(GLOBAL_TREE, a);
    PlannedAre(addresses, SegmentOf(a));
    PlannedAre(addresses, ShardOf(a));
    PlannedAre(addresses, RegionOf(a));
    PlannedAre(addresses, GLOBAL_TREE);
  }

  lemma PlannableApart(addresses: seq<PhysicalAddress>, meta: HierarchyMetadata, a: PhysicalAddress, b: PhysicalAddress)
    requires Plannable(addresses, meta) && a in addresses && b in addresses && Covered(meta, a) && Covered(meta, b)
    ensures Apart(meta, a, b)
  {
    hide Planned, TreePlannable;
    AllAbove(addresses, a);
    AllAbove(addresses, b);
    assert SameSlot(meta, SegmentOf(a), SegmentOf(b)) ==> SegmentOf(a) == SegmentOf(b);
    assert SameSlot(meta, ShardOf(a), ShardOf(b)) ==> ShardOf(a) == ShardOf(b);
    assert SameSlot(meta, RegionOf(a), RegionOf(b)) ==> RegionOf(a) == RegionOf(b);
  }

  lemma CoveredTree(addresses: seq<PhysicalAddress>, meta: HierarchyMetadata, t: TreeRef)
    requires (forall a :: a in addresses ==> Covered(meta, a)) && t in Planned(addresses)
    ensures TreePlannable(addresses, meta, t)
  {
    hide Planned, PlannedAt;
    PlannedAre(addresses, t);
    var a :| a in addresses && IsAbove(t, a);
    assert Covered(meta, a);
    TargetsAre(addresses, meta, a);
    forall i | i in PlannedTargets(addresses, meta, t) ensures 0 <= i < LeafCountOf(meta, t) {
      TargetWithin(addresses, meta, t, i);
    }
  }

  lemma TargetWithin(addresses: seq<PhysicalAddress>, meta: HierarchyMetadata, t: TreeRef, i: int)
    requires forall a :: a in addresses ==> Covered(meta, a)
    requires t in Planned(addresses) && i in PlannedTargets(addresses, meta, t)
    ensures 0 <= i < LeafCountOf(meta, t)
  {
    hide Planned, PlannedAt;
    LayersAre(addresses);
    if t.layer == LAYER_SEGMENT {
      var a :| a in addresses && SegmentOf(a) == t && a.leafID == i;
      assert Covered(meta, a);
    } else {
      var c :| c in PlannedAt(addresses, t.layer - 1) && ParentTree(c) == t && SlotFor(meta, c).index == i;
      ChildOf(addresses, t, c);
      var a :| a in addresses && (c == SegmentOf(a) || c == ShardOf(a) || c == RegionOf(a));
      assert Covered(meta, a);
    }
  }

  lemma ChildOf(addresses: seq<PhysicalAddress>, t: TreeRef, c: TreeRef)
    requires t in Planned(addresses) && t.layer != LAYER_SEGMENT && c in PlannedAt(addresses, t.layer - 1)
    ensures exists a :: a in addresses && (c == SegmentOf(a) || c == ShardOf(a) || c == RegionOf(a))
  {
    hide Planned, PlannedAt;
    LayersAre(addresses);
    if t.layer == LAYER_SHARD { var a :| a in addresses && c == SegmentOf(a); }
    else if t.layer == LAYER_REGION { var a :| a in addresses && c == ShardOf(a); }
    else { var a :| a in addresses && c == RegionOf(a); }
  }

  lemma CoveredSlots(addresses: seq<PhysicalAddress>, meta: HierarchyMetadata, c: TreeRef, d: TreeRef)
    requires forall a :: a in addresses ==> Covered(meta, a)
    requires forall a, b :: a in addresses && b in addresses ==> Apart(meta, a, b)
    requires c in Planned(addresses) && d in Planned(addresses) && SameSlot(meta, c, d)
    ensures c == d
  {
    hide Planned, Covered;
    PlannedAre(addresses, c);
    PlannedAre(addresses, d);
    var a :| a in addresses && IsAbove(c, a);
    var b :| b in addresses && IsAbove(d, b);
    assert Covered(meta, a) && Covered(meta, b) && Apart(meta, a, b);
    SlotsApart(meta, a, b, c, d);
  }

  lemma SlotsApart(meta: HierarchyMetadata, a: PhysicalAddress, b: PhysicalAddress, c: TreeRef, d: TreeRef)
    requires Covered(meta, a) && Covered(meta, b) && Apart(meta, a, b) && IsAbove(c, a) && IsAbove(d, b)
    requires SameSlot(meta, c, d)
    ensures c == d
  {
    assert ParentTree(c) == ParentTree(d);
  }

  /** A list can be planned exactly if it is not empty, every address is covered by the metadata, and no two trees above
      the addresses claim one position. */
  lemma PlannableIff(addresses: seq<PhysicalAddress>, meta: HierarchyMetadata)
    ensures Plannable(addresses, meta) <==>
      && addresses != [] && (forall a :: a in addresses ==> Covered(meta, a))
      && forall a, b :: a in addresses && b in addresses ==> Apart(meta, a, b)
  {
    hide Covered, Apart, TreePlannable, SameSlot, Planned;
    if Plannable(addresses, meta) {
      forall a | a in addresses ensures Covered(meta, a) { PlannableCovers(addresses, meta, a); }
      forall a, b | a in addresses && b in addresses ensures Apart(meta, a, b) {
        PlannableApart(addresses, meta, a, b);
      }
    }
    if addresses != [] && (forall a :: a in addresses ==> Covered(meta, a))
       && forall a, b :: a in addresses && b in addresses ==> Apart(meta, a, b) {
      forall t | t in Planned(addresses) ensures TreePlannable(addresses, meta, t) { CoveredTree(addresses, meta, t); }
      forall c, d | c in Planned(addresses) && d in Planned(addresses) && SameSlot(meta, c, d) ensures c == d {
        CoveredSlots(addresses, meta, c, d);
      }
    }
  }
}
