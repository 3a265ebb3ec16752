/** What the service builds, its verifier accepts (internal/hpp/proof.go, internal/hpp/verifier.go). */
module ServedProofs {
  import opened Hashing
  import opened Sorting
  import opened ProofTypes
  import opened TreePlanning
  import opened ProofInputs
  import opened Planner
  import opened ProofBuilding

  /** The contents of a built proof. */
  ghost predicate Served(storage: Storage, addresses: seq<PhysicalAddress>, inp: Inputs)
    requires Plannable(addresses, storage.meta)
  {
    && PlansServed(storage.meta, addresses, inp.plans)
    && NodesHeld(storage, RequiredSet(addresses, storage.meta), inp.nodes)
    && LeavesHeld(storage, addresses, inp.leaves)
    && ChildrenServed(storage.meta, addresses, inp.children)
  }

  ghost predicate PlansServed(meta: HierarchyMetadata, addresses: seq<PhysicalAddress>, plans: map<TreeRef, TreePlan>) {
    && (forall t :: t in plans <==> t in Planned(addresses))
    && (forall t :: t in plans ==> TreePlannable(addresses, meta, t) && plans[t] == PlanFor(addresses, meta, t))
  }

  ghost predicate NodesHeld(storage: Storage, refs: set<NodeRef>, nodes: map<NodeRef, Digest>) {
    && (forall r :: r in nodes <==> r in refs)
    && (forall r :: r in nodes ==> IsStored(storage, r) && nodes[r] == StoredHash(storage, r))
  }

  ghost predicate LeavesHeld(storage: Storage, addresses: seq<PhysicalAddress>, leaves: map<PhysicalAddress, Digest>) {
    && (forall a :: a in leaves <==> a in addresses)
    && (forall a :: a in leaves ==> IsStored(storage, LeafRef(a)) && leaves[a] == StoredHash(storage, LeafRef(a)))
  }

  ghost predicate ChildrenServed(meta: HierarchyMetadata, addresses: seq<PhysicalAddress>,
                                 children: map<Slot, TreeRef>) {
    && (forall c :: c in Planned(addresses) && c != GLOBAL_TREE ==>
        SlotFor(meta, c) in children && children[SlotFor(meta, c)] == c)
    && (forall s :: s in children ==>
          children[s] in Planned(addresses) && children[s] != GLOBAL_TREE && s == SlotFor(meta, children[s]))
  }

  predicate IsNormal(addresses: seq<PhysicalAddress>) {
    Normalized(addresses) == Ok(addresses)
  }

  lemma BuiltIsServed(storage: Storage, addresses: seq<PhysicalAddress>)
    requires Plannable(addresses, storage.meta) && AllStored(storage, addresses) && IsNormal(addresses)
    ensures Served(storage, addresses, InputsOf(ProofOf(storage, addresses))) && ListedOnce(ProofOf(storage, addresses))
  {
    hide Plannable, AllStored, Planned, ToMap, Distinct, PlansServed, NodesHeld, LeavesHeld, ChildrenServed, IsStored,
      RequiredSet, IsNormal, LeafRef, ReadSet, StoredLeaves, PlanOf, TreesOf, AddressesOf, LeafHashesOf, RefsOf,
      NodeHashesOf, SlotsOf, ChildrenOf;
    StoredEach(storage, addresses);
    RequiredEach(storage, addresses);
    TreesServed(addresses, storage.meta);
    NodesServed(storage, RequiredSet(addresses, storage.meta));
    LeavesServed(storage, addresses);
    LinksServed(addresses, storage.meta);
    PlannedAddresses(addresses, storage.meta);
  }

  lemma RequiredEach(storage: Storage, addresses: seq<PhysicalAddress>)
    requires Plannable(addresses, storage.meta) && AllStored(storage, addresses)
    ensures forall ref :: ref in RequiredSet(addresses, storage.meta) ==> IsStored(storage, ref)
  {
    hide Plannable, IsStored, RequiredSet;
  }

  lemma PlannedAddresses(addresses: seq<PhysicalAddress>, meta: HierarchyMetadata)
    requires Plannable(addresses, meta)
    ensures PlanOf(addresses, meta).addresses == addresses
  {
    hide Plannable;
  }

  lemma StoredEach(storage: Storage, addresses: seq<PhysicalAddress>)
    requires Plannable(addresses, storage.meta) && AllStored(storage, addresses)
    ensures forall a :: a in addresses ==> IsStored(storage, LeafRef(a))
  {
    hide Plannable, IsStored, LeafRef, LeafRefs;
    forall a | a in addresses ensures IsStored(storage, LeafRef(a)) { LeafRefIn(addresses, a); }
  }

  lemma SortedIsDistinct<T(!new)>(less: (T, T) -> bool, s: seq<T>)
    requires StrictOrder(less) && Sorted(less, s)
    ensures Distinct(s)
  {
    forall i, j | 0 <= i < j < |s| ensures s[i] != s[j] { assert less(s[i], s[j]); }
  }

  lemma ToMapAt<K(!new), V>(keys: seq<K>, values: seq<V>, k: K) returns (i: nat)
    requires |keys| == |values| && Distinct(keys) && k in keys
    ensures i < |keys| && keys[i] == k && ToMap(keys, values)[k] == values[i]
  {
    i :| 0 <= i < |keys| && keys[i] == k;
  }

  lemma TreesServed(addresses: seq<PhysicalAddress>, meta: HierarchyMetadata)
    requires Plannable(addresses, meta)
    ensures var trees := PlanOf(addresses, meta).trees;
      Distinct(TreesOf(trees)) && PlansServed(meta, addresses, ToMap(TreesOf(trees), trees))
  {
    hide Planned, PlannedAt, TreePlannable, PlanFor, CanonicalPlan, TreeRefLess, StrictOrder, Distinct, ToMap, Sorted,
      Plannable, PlanOf, TreesOf, SortTrees;
    var trees := PlanOf(addresses, meta).trees;
    var sorted := SortTrees(Planned(addresses));
    TreeRefOrder();
    TreesAre(addresses, meta);
    assert forall t :: t in sorted <==> t in Planned(addresses);
    SortedIsDistinct(TreeRefLess, sorted);
    var plans := ToMap(TreesOf(trees), trees);
    forall t | t in plans ensures TreePlannable(addresses, meta, t) && plans[t] == PlanFor(addresses, meta, t) {
      TreeServed(addresses, meta, t);
    }
  }

  lemma TreeServed(addresses: seq<PhysicalAddress>, meta: HierarchyMetadata, t: TreeRef)
    requires Plannable(addresses, meta) && Distinct(TreesOf(PlanOf(addresses, meta).trees))
    requires t in TreesOf(PlanOf(addresses, meta).trees)
    ensures var trees := PlanOf(addresses, meta).trees;
      TreePlannable(addresses, meta, t) && ToMap(TreesOf(trees), trees)[t] == PlanFor(addresses, meta, t)
  {
    hide Planned, TreePlannable, PlanFor, Distinct, ToMap, Plannable, PlanOf;
    var trees := PlanOf(addresses, meta).trees;
    var i := ToMapAt(TreesOf(trees), trees, t);
    PlanAt(addresses, meta, i);
  }

  lemma TreesAre(addresses: seq<PhysicalAddress>, meta: HierarchyMetadata)
    requires Plannable(addresses, meta)
    ensures TreesOf(PlanOf(addresses, meta).trees) == SortTrees(Planned(addresses))
    ensures |TreesOf(PlanOf(addresses, meta).trees)| == |PlanOf(addresses, meta).trees|
  {
    hide Planned, TreePlannable, PlanFor, TreeRefLess, Sorted;
    var trees, sorted := PlanOf(addresses, meta).trees, SortTrees(Planned(addresses));
    forall i | 0 <= i < |trees| ensures TreesOf(trees)[i] == sorted[i] {
      assert sorted[i] in sorted;
      PlanNamed(addresses, meta, sorted[i]);
    }
  }

  lemma NodesServed(storage: Storage, refs: set<NodeRef>)
    requires forall r :: r in refs ==> IsStored(storage, r)
    ensures var nodes := ReadSet(storage, refs);
      Distinct(RefsOf(nodes)) && NodesHeld(storage, refs, ToMap(RefsOf(nodes), NodeHashesOf(nodes)))
  {
    hide IsStored, RefLess, StrictOrder, ToMap, Distinct, Sorted;
    RefOrder();
    var nodes, sorted := ReadSet(storage, refs), SortRefs(refs);
    assert RefsOf(nodes) == sorted;
    SortedIsDistinct(RefLess, sorted);
    forall r | r in refs ensures ToMap(RefsOf(nodes), NodeHashesOf(nodes))[r] == StoredHash(storage, r) {
      assert r in sorted;
      var i := ToMapAt(RefsOf(nodes), NodeHashesOf(nodes), r);
    }
  }

  lemma LeavesServed(storage: Storage, addresses: seq<PhysicalAddress>)
    requires IsNormal(addresses) && forall a :: a in addresses ==> IsStored(storage, LeafRef(a))
    ensures var leaves := StoredLeaves(storage, addresses);
      Distinct(AddressesOf(leaves)) && LeavesHeld(storage, addresses, ToMap(AddressesOf(leaves), LeafHashesOf(leaves)))
  {
    hide IsStored, LeafRef, AddressLess, Sorted;
    var leaves := StoredLeaves(storage, addresses);
    assert AddressesOf(leaves) == addresses;
    NormalDistinct(addresses);
    forall a | a in addresses ensures ToMap(addresses, LeafHashesOf(leaves))[a] == StoredHash(storage, LeafRef(a)) {
      var i :| 0 <= i < |addresses| && addresses[i] == a;
    }
  }

  lemma NormalDistinct(addresses: seq<PhysicalAddress>)
    requires IsNormal(addresses)
    ensures Distinct(addresses)
  {
    hide AddressLess;
    AddressOrder();
    var sorted := SortAddresses(set a | a in addresses);
    assert addresses == sorted;
  }

  lemma LinksServed(addresses: seq<PhysicalAddress>, meta: HierarchyMetadata)
    requires Plannable(addresses, meta)
    ensures var links := PlanOf(addresses, meta).parentLinks;
      && Distinct(SlotsOf(links)) && Distinct(ChildrenOf(links))
      && ChildrenServed(meta, addresses, ToMap(SlotsOf(links), ChildrenOf(links)))
  {
    hide Planned, TreePlannable, SlotFor, LinkLess;
    var wanted := set t | t in Planned(addresses) && t != GLOBAL_TREE :: LinkFor(meta, t);
    var links := SortLinks(wanted);
    LinkOrder();
    forall i | 0 <= i < |links|
      ensures links[i].child in Planned(addresses) && links[i].child != GLOBAL_TREE
      ensures links[i] == LinkFor(meta, links[i].child)
      ensures SlotsOf(links)[i] == SlotFor(meta, links[i].child) && ChildrenOf(links)[i] == links[i].child
    {
      assert links[i] in links;
    }
    DistinctLinks(addresses, meta, links);
    LinksMap(addresses, meta, links);
  }

  lemma DistinctLinks(addresses: seq<PhysicalAddress>, meta: HierarchyMetadata, links: seq<ParentLink>)
    requires Plannable(addresses, meta) && Sorted(LinkLess, links)
    requires forall i :: 0 <= i < |links| ==> links[i].child in Planned(addresses) && links[i].child != GLOBAL_TREE
                                              && links[i] == LinkFor(meta, links[i].child)
    ensures Distinct(SlotsOf(links)) && Distinct(ChildrenOf(links))
  {
    hide Planned, TreePlannable, SlotFor, LinkLess;
    LinkOrder();
    forall i, j | 0 <= i < j < |links|
      ensures links[i].child != links[j].child && SlotsOf(links)[i] != SlotsOf(links)[j] {
      assert LinkLess(links[i], links[j]);
      assert !SameSlot(meta, links[i].child, links[j].child);
    }
  }

  lemma LinksMap(addresses: seq<PhysicalAddress>, meta: HierarchyMetadata, links: seq<ParentLink>)
    requires Distinct(SlotsOf(links))
    requires forall i :: 0 <= i < |links| ==> links[i].child in Planned(addresses) && links[i].child != GLOBAL_TREE
                                              && links[i] == LinkFor(meta, links[i].child)
    requires forall t :: t in Planned(addresses) && t != GLOBAL_TREE ==> LinkFor(meta, t) in links
    ensures ChildrenServed(meta, addresses, ToMap(SlotsOf(links), ChildrenOf(links)))
  {
    hide Planned, SlotFor, Distinct, ToMap;
    var slots, children := SlotsOf(links), ToMap(SlotsOf(links), ChildrenOf(links));
    forall c | c in Planned(addresses) && c != GLOBAL_TREE
      ensures SlotFor(meta, c) in children && children[SlotFor(meta, c)] == c {
      var i :| 0 <= i < |links| && links[i] == LinkFor(meta, c);
      assert slots[i] == SlotFor(meta, c) && ChildrenOf(links)[i] == c;
    }
    forall s | s in children
      ensures children[s] in Planned(addresses) && children[s] != GLOBAL_TREE && s == SlotFor(meta, children[s]) {
      var i := ToMapAt(slots, ChildrenOf(links), s);
    }
  }

  // ---- Built proofs are accepted ----

  /** The verifier accepts every built proof, whatever hashes the store holds. */
  lemma BuiltIsAcceptable(storage: Storage, requested: seq<PhysicalAddress>)
    requires Normalized(requested).Ok? && Plannable(Normalized(requested).value, storage.meta)
    requires AllStored(storage, Normalized(requested).value)
    ensures Acceptable(ProofOf(storage, Normalized(requested).value), requested)
  {
    hide Plannable, AllStored, Normalized, Served, ListedOnce, ValidInputs, PlanOf, IsStored, LeafRef, LeafRefs,
      ReadSet, InputsOf;
    var addresses := Normalized(requested).value;
    NormalizeTwice(requested);
    BuiltIsServed(storage, addresses);
    ServedIsValid(storage, addresses, InputsOf(ProofOf(storage, addresses)));
    PlannedAddresses(addresses, storage.meta);
    StoredEach(storage, addresses);
    assert AddressesOf(StoredLeaves(storage, addresses)) == addresses;
  }

  lemma ServedIsValid(storage: Storage, addresses: seq<PhysicalAddress>, inp: Inputs)
    requires Plannable(addresses, storage.meta) && Served(storage, addresses, inp)
    ensures ValidInputs(inp)
    ensures forall a :: a in addresses ==> SegmentOf(a) in inp.plans
  {
    hide Plannable, Served, PlansValid, NodesPlanned, LinksValid, AllLinked, TargetsGiven, PlannedAt, Planned;
    ServedPlans(storage, addresses, inp);
    ServedNodes(storage, addresses, inp);
    ServedLinks(storage, addresses, inp);
    forall t | t in inp.plans ensures TargetsGiven(inp, t) { ServedTargets(storage, addresses, inp, t); }
    forall a | a in addresses ensures SegmentOf(a) in inp.plans { SegmentServed(storage, addresses, inp, a); }
  }

  lemma SegmentServed(storage: Storage, addresses: seq<PhysicalAddress>, inp: Inputs, a: PhysicalAddress)
    requires Plannable(addresses, storage.meta) && Served(storage, addresses, inp) && a in addresses
    ensures SegmentOf(a) in inp.plans
  {
    hide Plannable, NodesHeld, LeavesHeld, ChildrenServed, TreePlannable, PlanFor, RequiredSet;
    assert SegmentOf(a) in PlannedAt(addresses, LAYER_SEGMENT);
  }

  lemma ServedPlans(storage: Storage, addresses: seq<PhysicalAddress>, inp: Inputs)
    requires Plannable(addresses, storage.meta) && Served(storage, addresses, inp)
    ensures PlansValid(inp.plans) && GLOBAL_TREE in inp.plans
  {
    hide Plannable, NodesHeld, LeavesHeld, ChildrenServed, TreePlannable, PlanFor, RequiredSet, PlannedAt, Planned,
      ValidShape;
    forall t | t in inp.plans ensures inp.plans[t].tree == t && ValidShape(inp.plans[t]) {
      PlanForValid(addresses, storage.meta, t);
    }
    GlobalPlanned(addresses, storage.meta);
  }

  lemma PlanForValid(addresses: seq<PhysicalAddress>, meta: HierarchyMetadata, t: TreeRef)
    requires TreePlannable(addresses, meta, t)
    ensures var plan := PlanFor(addresses, meta, t);
      plan.tree == t && ValidShape(plan) && TargetSet(plan) == PlannedTargets(addresses, meta, t)
  {
    hide NeededSet, PlannedTargets;
    assert TargetSet(PlanFor(addresses, meta, t)) == PlannedTargets(addresses, meta, t);
  }

  lemma GlobalPlanned(addresses: seq<PhysicalAddress>, meta: HierarchyMetadata)
    requires Plannable(addresses, meta)
    ensures GLOBAL_TREE in Planned(addresses)
  {
    hide TreePlannable, Planned;
    var t := SegmentOf(addresses[0]);
    assert t in PlannedAt(addresses, LAYER_SEGMENT);
    ParentPlanned(addresses, t, LAYER_SHARD);
    ParentPlanned(addresses, ParentTree(t), LAYER_REGION);
    ParentPlanned(addresses, ParentTree(ParentTree(t)), LAYER_GLOBAL);
  }

  lemma ServedNodes(storage: Storage, addresses: seq<PhysicalAddress>, inp: Inputs)
    requires Plannable(addresses, storage.meta) && Served(storage, addresses, inp)
    ensures NodesPlanned(inp.plans, inp.nodes)
  {
    hide Plannable, LeavesHeld, ChildrenServed, TreePlannable, PlanFor, PlannedAt, Planned, IsStored;
  }

  lemma ServedLinks(storage: Storage, addresses: seq<PhysicalAddress>, inp: Inputs)
    requires Plannable(addresses, storage.meta) && Served(storage, addresses, inp)
    ensures LinksValid(inp.plans, inp.children) && AllLinked(inp.plans, inp.children)
  {
    hide Plannable, LeavesHeld, NodesHeld, RequiredSet, TreePlannable, PlanFor, PlannedAt, Planned, ValidParentLink,
      SlotFor;
    forall s | s in inp.children ensures s.parent in inp.plans && ValidParentLink(inp.children[s], s.parent) {
      ParentServed(addresses, storage.meta, inp.children[s]);
    }
    forall t | t in inp.plans
      ensures t.layer == LAYER_GLOBAL ==> t == GLOBAL_TREE
      ensures t != GLOBAL_TREE ==>
        SlotFor(storage.meta, t) in inp.children && inp.children[SlotFor(storage.meta, t)] == t
    {
      OnlyGlobal(addresses, t);
    }
  }

  lemma ParentServed(addresses: seq<PhysicalAddress>, meta: HierarchyMetadata, c: TreeRef)
    requires c in Planned(addresses) && c != GLOBAL_TREE
    ensures SlotFor(meta, c).parent in Planned(addresses) && ValidParentLink(c, SlotFor(meta, c).parent)
  {
    hide PlannedAt;
    OnlyGlobal(addresses, c);
    ParentPlanned(addresses, c, c.layer + 1);
  }

  lemma ServedTargets(storage: Storage, addresses: seq<PhysicalAddress>, inp: Inputs, t: TreeRef)
    requires Plannable(addresses, storage.meta) && Served(storage, addresses, inp) && t in inp.plans
    ensures TargetsGiven(inp, t)
  {
    hide Plannable, NodesHeld, RequiredSet, TreePlannable, PlanFor, TargetSet, PlannedTargets, GivenTargets,
      ChildrenServed, PlannedAt, IsStored, LeafRef;
    PlanForValid(addresses, storage.meta, t);
    if t.layer == LAYER_SEGMENT {
      SegmentGiven(addresses, storage.meta, inp, t);
    } else {
      UpperTargets(addresses, storage.meta, inp, t);
    }
  }

  lemma SegmentGiven(addresses: seq<PhysicalAddress>, meta: HierarchyMetadata, inp: Inputs, t: TreeRef)
    requires t.layer == LAYER_SEGMENT && forall a :: a in inp.leaves <==> a in addresses
    ensures GivenTargets(inp, t) == PlannedTargets(addresses, meta, t)
  {}

  lemma UpperTargets(addresses: seq<PhysicalAddress>, meta: HierarchyMetadata, inp: Inputs, t: TreeRef)
    requires ChildrenServed(meta, addresses, inp.children) && t.layer != LAYER_SEGMENT && t in Planned(addresses)
    ensures GivenTargets(inp, t) == PlannedTargets(addresses, meta, t)
  {
    hide PlannedAt;
    forall i | i in GivenTargets(inp, t) ensures i in PlannedTargets(addresses, meta, t) {
      var s :| s in inp.children && s.parent == t && s.index == i;
      OnlyGlobal(addresses, inp.children[s]);
    }
    forall i | i in PlannedTargets(addresses, meta, t) ensures i in GivenTargets(inp, t) {
      var c :| c in PlannedAt(addresses, t.layer - 1) && ParentTree(c) == t && SlotFor(meta, c).index == i;
      assert c in Planned(addresses) && c != GLOBAL_TREE;
    }
  }
}
