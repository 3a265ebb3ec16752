/** Storage that holds a forest: what every proof needs is stored, and true. */
module StoredForest {
  import opened Hashing
  import opened Merkle
  import opened NodeStore
  import opened ProofTypes
  import opened TreePlanning
  import opened PersistedNodes
  import opened Forests
  import opened ForestTrees
  import opened ProofInputs
  import opened Planner
  import opened ProofBuilding
  import opened RequestCounts
  import opened Verifier
  import opened ProofSoundness
  import opened ProofCompleteness
  import opened ServedProofs

  // ---- What is stored is true ----

  ghost predicate MetaTrue(f: Forest, contents: Contents, t: TreeRef, m: TreeMetadata)
    requires Stored(f, contents)
  {
    && HasTree(f, t) && t.layer < LAYER_GLOBAL && m.leafCount == |LeavesOf(f, contents, t)|
    && HasTree(f, ParentTree(t)) && 0 <= m.parentLeafIndex < |LeavesOf(f, contents, ParentTree(t))|
    && ChildAt(f, ParentTree(t), m.parentLeafIndex) == t
  }

  ghost predicate NodesTrue(f: Forest, contents: Contents, t: TreeRef, store: Store)
    requires Stored(f, contents)
  {
    HasTree(f, t) && Agrees(store, LeavesOf(f, contents, t))
  }

  ghost predicate Faithful(f: Forest, contents: Contents, storage: Storage)
    requires Stored(f, contents)
  {
    && (forall t :: t in storage.meta.trees ==> MetaTrue(f, contents, t, storage.meta.trees[t]))
    && (storage.meta.globalLeafCount == 0 || storage.meta.globalLeafCount == |f.regionIDs|)
    && (forall t :: t in storage.nodes ==> NodesTrue(f, contents, t, storage.nodes[t]))
  }

  // ---- What proofs need is stored ----

  ghost predicate Full(storage: Storage, t: TreeRef, n: nat) {
    t in storage.nodes && forall p :: InTree(n, p) ==> p in storage.nodes[t]
  }

  /** Everything above a sealed segment is stored. */
  ghost predicate SegmentHeld(f: Forest, contents: Contents, storage: Storage, t: TreeRef)
    requires Stored(f, contents) && HasTree(f, t) && t.layer == LAYER_SEGMENT
  {
    var shard, region := ParentTree(t), RegionTree(t.regionID);
    && t in storage.meta.trees && storage.meta.trees[t].sealed && shard in storage.meta.trees
    && region in storage.meta.trees
    && storage.meta.globalLeafCount == |f.regionIDs|
    && Full(storage, t, |LeavesOf(f, contents, t)|)
    && HasTree(f, shard) && Full(storage, shard, |LeavesOf(f, contents, shard)|)
    && region in storage.nodes && Covered(storage.nodes[region], f.numShards, t.shardID)
    && t.regionID in f.regionIDs
    && GLOBAL_TREE in storage.nodes
    && Covered(storage.nodes[GLOBAL_TREE], |f.regionIDs|, RegionIndex(f.regionIDs, t.regionID))
  }

  ghost predicate Complete(f: Forest, contents: Contents, storage: Storage)
    requires Stored(f, contents)
  {
    forall t :: HasTree(f, t) && t.layer == LAYER_SEGMENT ==> SegmentHeld(f, contents, storage, t)
  }

  ghost predicate Holds(f: Forest, contents: Contents, storage: Storage) {
    Stored(f, contents) && Faithful(f, contents, storage) && Complete(f, contents, storage)
  }

  /** The address of a leaf of a sealed segment. */
  ghost predicate Sealed(f: Forest, contents: Contents, a: PhysicalAddress)
    requires Stored(f, contents)
  {
    HasTree(f, SegmentOf(a)) && 0 <= a.leafID < |LeavesOf(f, contents, SegmentOf(a))|
  }

  ghost predicate AllSealed(f: Forest, contents: Contents, addresses: seq<PhysicalAddress>)
    requires Stored(f, contents)
  {
    forall a :: a in addresses ==> Sealed(f, contents, a)
  }

  // ---- Planning succeeds ----

  lemma SealedPlannable(f: Forest, contents: Contents, storage: Storage, addresses: seq<PhysicalAddress>)
    requires Holds(f, contents, storage) && AllSealed(f, contents, addresses) && addresses != []
    ensures Plannable(addresses, storage.meta)
  {
    hide Stored, Faithful, Complete, PlannedAt, Planned, TreePlannable, LeavesOf, HasTree, SameSlot, Sealed;
    forall t | t in Planned(addresses) ensures TreePlannable(addresses, storage.meta, t) {
      TreeIsPlannable(f, contents, storage, addresses, t);
    }
    forall c, d | c in Planned(addresses) && d in Planned(addresses) && SameSlot(storage.meta, c, d) ensures c == d {
      SlotsDiffer(f, contents, storage, addresses, c, d);
    }
  }

  /** A planned tree lies above a requested address. */
  lemma {:induction false} AboveAddress(addresses: seq<PhysicalAddress>, layer: int,
                                        t: TreeRef) returns (a: PhysicalAddress)
    requires LAYER_SEGMENT <= layer <= LAYER_GLOBAL && t in PlannedAt(addresses, layer)
    ensures a in addresses && t == TreeAbove(a, layer) && t.layer == layer
    decreases layer
  {
    if layer == LAYER_SEGMENT {
      a :| a in addresses && t == SegmentOf(a);
    } else {
      var c :| c in PlannedAt(addresses, layer - 1) && ParentTree(c) == t;
      a := AboveAddress(addresses, layer - 1, c);
    }
  }

  function TreeAbove(a: PhysicalAddress, layer: int): TreeRef {
    if layer <= LAYER_SEGMENT then SegmentOf(a)
    else if layer == LAYER_SHARD then ShardTree(a.regionID, a.shardID)
    else if layer == LAYER_REGION then RegionTree(a.regionID)
    else GLOBAL_TREE
  }

  lemma TreeKnown(f: Forest, contents: Contents, storage: Storage, addresses: seq<PhysicalAddress>, t: TreeRef)
    requires Holds(f, contents, storage) && AllSealed(f, contents, addresses) && t in Planned(addresses)
    ensures t == GLOBAL_TREE || t in storage.meta.trees
    ensures t.layer == LAYER_SEGMENT ==> storage.meta.trees[t].sealed
    ensures HasTree(f, t) && LeafCountOf(storage.meta, t) == |LeavesOf(f, contents, t)| > 0
  {
    hide WellFormed, Backed, PlannedAt, Planned, LeavesOf, Full, Covered, HasTree;
    var a := AboveAddress(addresses, t.layer, t);
    assert Sealed(f, contents, a) && SegmentHeld(f, contents, storage, SegmentOf(a));
    if t == GLOBAL_TREE {
      GlobalRootIs(f, contents);
      GlobalSize(f, contents);
    } else {
      assert MetaTrue(f, contents, t, storage.meta.trees[t]);
      SizeAbove(f, contents, a, t);
    }
  }

  lemma GlobalSize(f: Forest, contents: Contents)
    requires Stored(f, contents)
    ensures HasTree(f, GLOBAL_TREE) && |LeavesOf(f, contents, GLOBAL_TREE)| == |f.regionIDs| > 0
  {}

  lemma SizeAbove(f: Forest, contents: Contents, a: PhysicalAddress, t: TreeRef)
    requires Stored(f, contents) && Sealed(f, contents, a) && HasTree(f, t) && t == TreeAbove(a, t.layer)
    ensures |LeavesOf(f, contents, t)| > 0
  {
    hide Backed;
  }

  lemma TreeIsPlannable(f: Forest, contents: Contents, storage: Storage, addresses: seq<PhysicalAddress>, t: TreeRef)
    requires Holds(f, contents, storage) && AllSealed(f, contents, addresses) && t in Planned(addresses)
    ensures TreePlannable(addresses, storage.meta, t)
  {
    hide WellFormed, Backed, PlannedAt, Planned, LeavesOf, Full, Covered, HasTree;
    TreeKnown(f, contents, storage, addresses, t);
    forall i | i in PlannedTargets(addresses, storage.meta, t) ensures 0 <= i < |LeavesOf(f, contents, t)| {
      if t.layer == LAYER_SEGMENT {
        var a :| a in addresses && SegmentOf(a) == t && a.leafID == i;
        assert Sealed(f, contents, a);
      } else {
        var c :| c in PlannedAt(addresses, t.layer - 1) && ParentTree(c) == t && SlotFor(storage.meta, c).index == i;
        assert c in Planned(addresses);
        TreeKnown(f, contents, storage, addresses, c);
        assert MetaTrue(f, contents, c, storage.meta.trees[c]);
      }
    }
    HasTargets(addresses, storage.meta, t);
  }

  lemma HasTargets(addresses: seq<PhysicalAddress>, meta: HierarchyMetadata, t: TreeRef)
    requires t in Planned(addresses)
    ensures PlannedTargets(addresses, meta, t) != {}
  {
    hide Planned;
    if t.layer == LAYER_SEGMENT {
      var a :| a in addresses && t == SegmentOf(a);
      assert a.leafID in PlannedTargets(addresses, meta, t);
    } else {
      var c :| c in PlannedAt(addresses, t.layer - 1) && ParentTree(c) == t;
      assert SlotFor(meta, c).index in PlannedTargets(addresses, meta, t);
    }
  }

  /** True metadata puts different trees at different positions. */
  lemma SlotsDiffer(f: Forest, contents: Contents, storage: Storage, addresses: seq<PhysicalAddress>, c: TreeRef,
                    d: TreeRef)
    requires Holds(f, contents, storage) && AllSealed(f, contents, addresses)
    requires c in Planned(addresses) && d in Planned(addresses) && SameSlot(storage.meta, c, d)
    ensures c == d
  {
    hide WellFormed, Backed, Complete, PlannedAt, Planned, LeavesOf, HasTree, AllSealed;
    TreeKnown(f, contents, storage, addresses, c);
    TreeKnown(f, contents, storage, addresses, d);
    assert MetaTrue(f, contents, c, storage.meta.trees[c]) && MetaTrue(f, contents, d, storage.meta.trees[d]);
  }

  // ---- Every needed node is stored ----

  lemma SealedStored(f: Forest, contents: Contents, storage: Storage, addresses: seq<PhysicalAddress>)
    requires Holds(f, contents, storage) && AllSealed(f, contents, addresses) && Plannable(addresses, storage.meta)
    ensures AllStored(storage, addresses)
  {
    hide WellFormed, Backed, Faithful, Complete, PlannedAt, Planned, LeavesOf, HasTree, Plannable, RequiredSet,
      IsStored, LeafRef, Sealed;
    forall ref | ref in LeafRefs(addresses) ensures IsStored(storage, ref) {
      var a :| a in addresses && ref == LeafRef(a);
      LeafStored(f, contents, storage, a);
    }
    forall ref | ref in RequiredSet(addresses, storage.meta) ensures IsStored(storage, ref) {
      RequiredStored(f, contents, storage, addresses, ref);
    }
  }

  lemma LeafStored(f: Forest, contents: Contents, storage: Storage, a: PhysicalAddress)
    requires Holds(f, contents, storage) && Sealed(f, contents, a)
    ensures IsStored(storage, LeafRef(a))
  {
    hide WellFormed, Backed, Faithful, LeavesOf, HasTree, Covered, InTree;
    assert SegmentHeld(f, contents, storage, SegmentOf(a));
    LeafInTree(|LeavesOf(f, contents, SegmentOf(a))|, a.leafID);
  }

  lemma LeafInTree(n: nat, i: int)
    requires 0 <= i < n
    ensures InTree(n, Position(0, i))
  {}

  lemma RequiredStored(f: Forest, contents: Contents, storage: Storage, addresses: seq<PhysicalAddress>, ref: NodeRef)
    requires Holds(f, contents, storage) && AllSealed(f, contents, addresses) && Plannable(addresses, storage.meta)
    requires ref in RequiredSet(addresses, storage.meta)
    ensures IsStored(storage, ref)
  {
    hide WellFormed, Backed, Faithful, PlannedAt, LeavesOf, HasTree, Covered, Full, PlanFor, PlannedTargets, Needed,
      TreePlannable;
    var t := ref.tree;
    TreeKnown(f, contents, storage, addresses, t);
    var a := AboveAddress(addresses, t.layer, t);
    assert Sealed(f, contents, a) && SegmentHeld(f, contents, storage, SegmentOf(a));
    var n, targets := |LeavesOf(f, contents, t)|, PlannedTargets(addresses, storage.meta, t);
    RequiredNeeded(addresses, storage.meta, t, ref.position);
    if t.layer <= LAYER_SHARD {
      FullHas(storage, t, n, targets, ref.position);
    } else {
      UpperCovered(f, contents, storage, addresses, t);
      NeededIsStored(storage.nodes[t], LeavesOf(f, contents, t), targets, ref.position);
    }
  }

  lemma RequiredNeeded(addresses: seq<PhysicalAddress>, meta: HierarchyMetadata, t: TreeRef, p: Position)
    requires TreePlannable(addresses, meta, t) && p in PlanFor(addresses, meta, t).required
    ensures Needed(LeafCountOf(meta, t), PlannedTargets(addresses, meta, t), p)
  {
    hide PlannedTargets, Needed;
  }

  lemma FullHas(storage: Storage, t: TreeRef, n: nat, targets: set<int>, p: Position)
    requires Full(storage, t, n) && Needed(n, targets, p)
    ensures IsStored(storage, NodeRef(t, p))
  {
    hide Width, Height, Active;
    assert InTree(n, p);
  }

  /** Every position that a plan targets in a Region or Global tree has been rewritten. */
  lemma UpperCovered(f: Forest, contents: Contents, storage: Storage, addresses: seq<PhysicalAddress>, t: TreeRef)
    requires Holds(f, contents, storage) && AllSealed(f, contents, addresses) && t in Planned(addresses)
    requires t.layer >= LAYER_REGION
    ensures HasTree(f, t) && t in storage.nodes && Agrees(storage.nodes[t], LeavesOf(f, contents, t))
    ensures forall i :: i in PlannedTargets(addresses, storage.meta, t) ==>
      Covered(storage.nodes[t], |LeavesOf(f, contents, t)|, i)
  {
    hide WellFormed, Backed, PlannedAt, LeavesOf, HasTree, Covered, Full, Agrees, Planned;
    TreeKnown(f, contents, storage, addresses, t);
    var a := AboveAddress(addresses, t.layer, t);
    assert Sealed(f, contents, a) && SegmentHeld(f, contents, storage, SegmentOf(a));
    assert NodesTrue(f, contents, t, storage.nodes[t]);
    forall i | i in PlannedTargets(addresses, storage.meta, t)
      ensures Covered(storage.nodes[t], |LeavesOf(f, contents, t)|, i) {
      var c :| c in PlannedAt(addresses, t.layer - 1) && ParentTree(c) == t && SlotFor(storage.meta, c).index == i;
      ChildCovered(f, contents, storage, addresses, t, c);
    }
  }

  lemma ChildCovered(f: Forest, contents: Contents, storage: Storage, addresses: seq<PhysicalAddress>, t: TreeRef,
                     c: TreeRef)
    requires Holds(f, contents, storage) && AllSealed(f, contents, addresses) && HasTree(f, t)
    requires LAYER_REGION <= t.layer <= LAYER_GLOBAL && c in PlannedAt(addresses, t.layer - 1) && ParentTree(c) == t
    ensures t in storage.nodes && Covered(storage.nodes[t], |LeavesOf(f, contents, t)|, SlotFor(storage.meta, c).index)
  {
    hide WellFormed, Backed, PlannedAt, LeavesOf, HasTree, Covered, Full, Agrees, Planned;
    assert c in Planned(addresses);
    var a := AboveAddress(addresses, c.layer, c);
    assert Sealed(f, contents, a) && SegmentHeld(f, contents, storage, SegmentOf(a));
    TreeKnown(f, contents, storage, addresses, c);
    assert MetaTrue(f, contents, c, storage.meta.trees[c]);
    UpperSize(f, contents, t);
    if t.layer == LAYER_GLOBAL { SameRegion(f, storage.meta.trees[c].parentLeafIndex, c.regionID); }
  }

  lemma UpperSize(f: Forest, contents: Contents, t: TreeRef)
    requires Stored(f, contents) && HasTree(f, t) && t.layer >= LAYER_REGION
    ensures |LeavesOf(f, contents, t)| == if t.layer == LAYER_REGION then f.numShards else |f.regionIDs|
  {}

  lemma SameRegion(f: Forest, i: int, regionID: Text)
    requires WellFormed(f) && 0 <= i < |f.regionIDs| && f.regionIDs[i] == regionID
    ensures i == RegionIndex(f.regionIDs, regionID)
  {}

  // ---- What is served is true ----

  lemma ServedIsTruthful(f: Forest, contents: Contents, storage: Storage, addresses: seq<PhysicalAddress>, inp: Inputs)
    requires Holds(f, contents, storage) && AllSealed(f, contents, addresses)
    requires Plannable(addresses, storage.meta) && Served(storage, addresses, inp)
    ensures Truthful(f, contents, inp)
  {
    hide WellFormed, Backed, Complete, PlannedAt, LeavesOf, HasTree, Planned, Plannable, PlanTrue, NodeTrue, LeafTrue,
      LinkSound, PlanFor, TreePlannable, IsStored, AllSealed, LeafRef;
    forall t | t in inp.plans ensures PlanTrue(f, contents, inp.plans[t]) {
      PlanServedTrue(f, contents, storage, addresses, t);
    }
    forall r | r in inp.nodes ensures NodeTrue(f, contents, r, inp.nodes[r]) {
      StoredNodeTrue(f, contents, storage, r);
    }
    forall a | a in inp.leaves ensures LeafTrue(f, contents, a, inp.leaves[a]) {
      StoredLeafTrue(f, contents, storage, a);
    }
    forall s | s in inp.children ensures LinkSound(f, inp, s) {
      LinkServedTrue(f, contents, storage, addresses, inp, s);
    }
  }

  lemma PlanServedTrue(f: Forest, contents: Contents, storage: Storage, addresses: seq<PhysicalAddress>, t: TreeRef)
    requires Holds(f, contents, storage) && AllSealed(f, contents, addresses)
    requires t in Planned(addresses) && TreePlannable(addresses, storage.meta, t)
    ensures PlanTrue(f, contents, PlanFor(addresses, storage.meta, t))
  {
    hide WellFormed, Backed, Faithful, Complete, LeavesOf, HasTree, Planned, AllSealed, PlannedTargets, NeededSet;
    TreeKnown(f, contents, storage, addresses, t);
  }

  lemma StoredNodeTrue(f: Forest, contents: Contents, storage: Storage, r: NodeRef)
    requires Stored(f, contents) && Faithful(f, contents, storage) && IsStored(storage, r)
    ensures NodeTrue(f, contents, r, StoredHash(storage, r))
  {
    hide WellFormed, Backed, LeavesOf, HasTree, InTree, NodeAt;
    assert NodesTrue(f, contents, r.tree, storage.nodes[r.tree]);
  }

  lemma StoredLeafTrue(f: Forest, contents: Contents, storage: Storage, a: PhysicalAddress)
    requires Stored(f, contents) && Faithful(f, contents, storage) && IsStored(storage, LeafRef(a))
    ensures LeafTrue(f, contents, a, StoredHash(storage, LeafRef(a)))
  {
    hide WellFormed, Backed, LeavesOf, HasTree, Faithful;
    StoredNodeTrue(f, contents, storage, LeafRef(a));
  }

  lemma LinkServedTrue(f: Forest, contents: Contents, storage: Storage, addresses: seq<PhysicalAddress>, inp: Inputs,
                       s: Slot)
    requires Holds(f, contents, storage) && AllSealed(f, contents, addresses)
    requires ChildrenServed(storage.meta, addresses, inp.children)
    requires s in inp.children
    ensures LinkSound(f, inp, s)
  {
    hide WellFormed, Backed, Complete, LeavesOf, HasTree, Planned, AllSealed;
    var c := inp.children[s];
    TreeKnown(f, contents, storage, addresses, c);
    assert MetaTrue(f, contents, c, storage.meta.trees[c]);
  }

  /** End to end: for any non-empty list of addresses in sealed segments, the service builds a
      proof from storage that holds the forest, and the verifier computes the forest's root from it. */
  lemma EndToEnd(f: Forest, contents: Contents, storage: Storage, requested: seq<PhysicalAddress>)
    requires Holds(f, contents, storage) && requested != [] && AllSealed(f, contents, requested)
    ensures Normalized(requested).Ok?
    ensures var addresses := Normalized(requested).value;
      && Plannable(addresses, storage.meta) && AllStored(storage, addresses) && AskedOnce(addresses, storage.meta)
      && RowsServe(storage, addresses)
      && VerifiedRoot(ProofOf(storage, addresses), requested) == Ok(ForestRoot(f))
      && (forall a :: a in requested ==> SegmentOf(a) in InputsOf(ProofOf(storage, addresses)).plans)
  {
    hide WellFormed, Backed, Faithful, Complete, Plannable, AllStored, LeavesOf, HasTree, Sealed, ProofOf, InputsOf,
      Acceptable, ForestRoot, GlobalRootOf, Served, Truthful, Planned, AddressLess, AskedOnce, RowsServe;
    SealedNormal(f, contents, requested);
    var addresses := Normalized(requested).value;
    NormalizeTwice(requested);
    NormalElements(requested);
    SealedPlannable(f, contents, storage, addresses);
    SealedStored(f, contents, storage, addresses);
    PlansAskOnce(addresses, storage.meta);
    StoredRowsServe(storage, addresses);
    BuiltIsAcceptable(storage, requested);
    var inp := InputsOf(ProofOf(storage, addresses));
    BuiltIsServed(storage, addresses);
    ServedIsValid(storage, addresses, inp);
    ServedIsTruthful(f, contents, storage, addresses, inp);
    TruthfulRoot(f, contents, inp);
  }

  /** Addresses in sealed segments are well formed. */
  lemma SealedNormal(f: Forest, contents: Contents, requested: seq<PhysicalAddress>)
    requires Stored(f, contents) && AllSealed(f, contents, requested)
    ensures Normalized(requested).Ok?
  {
    hide Backed, LeavesOf, SortAddresses;
    forall i | 0 <= i < |requested| ensures ValidAddress(requested[i]) {
      var a := requested[i];
      assert Sealed(f, contents, a);
      var key := KeyOf(SegmentOf(a));
      assert HasShard(f, key) && SegmentsValid(f.segments[key]);
    }
  }

  lemma NormalElements(requested: seq<PhysicalAddress>)
    requires Normalized(requested).Ok?
    ensures forall a :: a in Normalized(requested).value <==> a in requested
    ensures requested != [] ==> Normalized(requested).value != []
  {
    hide AddressLess;
    var all := set a | a in requested;
    if requested != [] { assert requested[0] in all; }
  }
}
