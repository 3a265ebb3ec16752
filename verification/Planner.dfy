/** Planning a proof for a list of addresses (internal/hpp/planner.go): which trees it
    crosses, from the requested Segments up to the Global tree, and how they hang together. */
module Planner {
  import opened Hashing
  import opened Sorting
  import opened ProofTypes
  import opened TreePlanning
  import opened ProofInputs

  datatype TreeMetadata = TreeMetadata(leafCount: int, parentLeafIndex: int, sealed: bool)

  /** What is stored about the Segment, Shard and Region trees, and the Global tree's size. */
  datatype HierarchyMetadata = HierarchyMetadata(trees: map<TreeRef, TreeMetadata>, globalLeafCount: int)

  function ParentTree(t: TreeRef): TreeRef {
    if t.layer == LAYER_SEGMENT then ShardTree(t.regionID, t.shardID)
    else if t.layer == LAYER_SHARD then RegionTree(t.regionID)
    else GLOBAL_TREE
  }

  /** The trees of a layer that lie above a requested address. */
  function PlannedAt(addresses: seq<PhysicalAddress>, layer: int): (s: set<TreeRef>)
    ensures LAYER_SEGMENT <= layer <= LAYER_GLOBAL ==> forall t :: t in s ==> t.layer == layer
    decreases layer
  {
    if layer <= LAYER_SEGMENT then set a | a in addresses :: SegmentOf(a)
    else set t | t in PlannedAt(addresses, layer - 1) :: ParentTree(t)
  }

  /** The trees of the layers below one that lie above a requested address. */
  function PlannedBelow(addresses: seq<PhysicalAddress>, layer: int): (s: set<TreeRef>)
    ensures layer <= LAYER_GLOBAL + 1 ==>
      forall t :: t in s <==> LAYER_SEGMENT <= t.layer < layer && t in PlannedAt(addresses, t.layer)
    decreases layer
  {
    if layer <= LAYER_SEGMENT then {} else PlannedBelow(addresses, layer - 1) + PlannedAt(addresses, layer - 1)
  }

  function Planned(addresses: seq<PhysicalAddress>): (s: set<TreeRef>)
    ensures forall t :: t in s <==> LAYER_SEGMENT <= t.layer <= LAYER_GLOBAL && t in PlannedAt(addresses, t.layer)
  {
    PlannedBelow(addresses, LAYER_GLOBAL + 1)
  }

  function LeafCountOf(meta: HierarchyMetadata, t: TreeRef): int {
    if t == GLOBAL_TREE then meta.globalLeafCount else if t in meta.trees then meta.trees[t].leafCount else 0
  }

  /** Where a tree's committed root sits. */
  function SlotFor(meta: HierarchyMetadata, t: TreeRef): Slot {
    Slot(ParentTree(t), if t in meta.trees then meta.trees[t].parentLeafIndex else 0)
  }

  function PlannedTargets(addresses: seq<PhysicalAddress>, meta: HierarchyMetadata, t: TreeRef): set<int> {
    if t.layer == LAYER_SEGMENT then set a | a in addresses && SegmentOf(a) == t :: a.leafID
    else set c | c in PlannedAt(addresses, t.layer - 1) && ParentTree(c) == t :: SlotFor(meta, c).index
  }

  predicate TreePlannable(addresses: seq<PhysicalAddress>, meta: HierarchyMetadata, t: TreeRef) {
    && (t == GLOBAL_TREE || t in meta.trees)
    && (t.layer == LAYER_SEGMENT ==> meta.trees[t].sealed)
    && ValidTargets(LeafCountOf(meta, t), PlannedTargets(addresses, meta, t))
  }

  /** The metadata covers the addresses: every tree above one is known, every requested leaf
      and every child lies within its tree, and no two children share a leaf position. */
  predicate Plannable(addresses: seq<PhysicalAddress>, meta: HierarchyMetadata) {
    && addresses != []
    && (forall t :: t in Planned(addresses) ==> TreePlannable(addresses, meta, t))
    && (forall c, d :: c in Planned(addresses) && d in Planned(addresses) && SameSlot(meta, c, d) ==> c == d)
  }

  predicate SameSlot(meta: HierarchyMetadata, c: TreeRef, d: TreeRef) {
    c != GLOBAL_TREE && d != GLOBAL_TREE && SlotFor(meta, c) == SlotFor(meta, d)
  }

  function PlanFor(addresses: seq<PhysicalAddress>, meta: HierarchyMetadata, t: TreeRef): TreePlan
    requires TreePlannable(addresses, meta, t)
  {
    CanonicalPlan(t, LeafCountOf(meta, t), PlannedTargets(addresses, meta, t))
  }

  function SortTrees(s: set<TreeRef>): (r: seq<TreeRef>)
    ensures Sorted(TreeRefLess, r) && SameElements(r, s) && |r| == |s|
  {
    TreeRefOrder();
    SortSet(TreeRefLess, s)
  }

  /** By parent and position; links of one plan never differ in the child alone. */
  predicate LinkLess(a: ParentLink, b: ParentLink) {
    if a.parent != b.parent then TreeRefLess(a.parent, b.parent)
    else if a.parentLeafIndex != b.parentLeafIndex then a.parentLeafIndex < b.parentLeafIndex
    else TreeRefLess(a.child, b.child)
  }

  lemma LinkOrder()
    ensures StrictOrder(LinkLess)
  {
    TreeRefOrder();
  }

  function SortLinks(s: set<ParentLink>): (r: seq<ParentLink>)
    ensures Sorted(LinkLess, r) && SameElements(r, s) && |r| == |s|
  {
    LinkOrder();
    SortSet(LinkLess, s)
  }

  function LinkFor(meta: HierarchyMetadata, t: TreeRef): ParentLink {
    ParentLink(t, SlotFor(meta, t).parent, SlotFor(meta, t).index)
  }

  lemma SortedPlannable(addresses: seq<PhysicalAddress>, meta: HierarchyMetadata)
    requires Plannable(addresses, meta)
    ensures forall i :: 0 <= i < |SortTrees(Planned(addresses))| ==>
      TreePlannable(addresses, meta, SortTrees(Planned(addresses))[i])
    ensures forall t :: t in Planned(addresses) ==> TreePlannable(addresses, meta, t)
  {
    hide Planned, TreePlannable, SortTrees;
    var trees := SortTrees(Planned(addresses));
    assert forall i :: 0 <= i < |trees| ==> trees[i] in trees;
  }

  /** The plan for normalized addresses. */
  function PlanOf(addresses: seq<PhysicalAddress>, meta: HierarchyMetadata): ProofPlan
    requires Plannable(addresses, meta)
  {
    var trees := SortTrees(Planned(addresses));
    SortedPlannable(addresses, meta);
    ProofPlan(addresses,
              seq(|trees|, i requires 0 <= i < |trees| => PlanFor(addresses, meta, trees[i])),
              SortLinks(set t | t in Planned(addresses) && t != GLOBAL_TREE :: LinkFor(meta, t)))
  }

  // ---- The planner ----

  /** The trees of `done` are planned and linked. */
  ghost predicate PlannedSoFar(addresses: seq<PhysicalAddress>, meta: HierarchyMetadata, done: set<TreeRef>,
                               plans: map<TreeRef, TreePlan>, children: map<Slot, TreeRef>) {
    && (forall t :: t in plans <==> t in done)
    && (forall t :: t in done ==> TreePlannable(addresses, meta, t) && plans[t] == PlanFor(addresses, meta, t))
    && (forall t :: t in done && t != GLOBAL_TREE ==> SlotFor(meta, t) in children && children[SlotFor(meta, t)] == t)
    && (forall s :: s in children ==>
        children[s] in done && children[s] != GLOBAL_TREE && s == SlotFor(meta, children[s]))
  }

  method Plan(requested: seq<PhysicalAddress>, meta: HierarchyMetadata) returns (r: Result<ProofPlan>)
    ensures r == match Normalized(requested)
                 case Err => Err
                 case Ok(addresses) => if Plannable(addresses, meta) then Ok(PlanOf(addresses, meta)) else Err
  {
    hide PlannedSoFar, TreePlannable, Normalized, PlanOf, Planned, PlannedBelow, Assembled;
    var addresses :- NormalizeAddresses(requested);
    if addresses == [] { return Err; }
    var sealed := CheckSegments(addresses, meta);
    if !sealed { return Err; }
    var plans: map<TreeRef, TreePlan> := map[];
    var children: map<Slot, TreeRef> := map[];
    NonePlanned(addresses, meta);
    for layer := LAYER_SEGMENT to LAYER_GLOBAL + 1
      invariant PlannedSoFar(addresses, meta, PlannedBelow(addresses, layer), plans, children)
    {
      var ok;
      ok, plans, children := PlanLayer(addresses, meta, layer, plans, children);
      if !ok { return Err; }
    }
    AllPlanned(addresses, meta, plans, children);
    return Ok(Assembled(addresses, plans, children));
  }

  /** Every requested segment must be stored and sealed, and hold the requested leaf. */
  method CheckSegments(addresses: seq<PhysicalAddress>, meta: HierarchyMetadata) returns (ok: bool)
    ensures ok ==> forall t :: t in PlannedAt(addresses, LAYER_SEGMENT) ==> t in meta.trees && meta.trees[t].sealed
    ensures !ok ==> !Plannable(addresses, meta)
  {
    for i := 0 to |addresses|
      invariant forall j :: 0 <= j < i ==>
        SegmentOf(addresses[j]) in meta.trees && meta.trees[SegmentOf(addresses[j])].sealed
    {
      var t := SegmentOf(addresses[i]);
      if t !in meta.trees || !meta.trees[t].sealed || addresses[i].leafID >= meta.trees[t].leafCount {
        SegmentUnplannable(addresses, meta, addresses[i]);
        return false;
      }
    }
    return true;
  }

  lemma SegmentUnplannable(addresses: seq<PhysicalAddress>, meta: HierarchyMetadata, a: PhysicalAddress)
    requires a in addresses
    requires var t := SegmentOf(a); t !in meta.trees || !meta.trees[t].sealed || a.leafID >= meta.trees[t].leafCount
    ensures !Plannable(addresses, meta)
  {
    var t := SegmentOf(a);
    assert t in PlannedAt(addresses, t.layer) && t in Planned(addresses);
    assert a.leafID in PlannedTargets(addresses, meta, t);
    assert !TreePlannable(addresses, meta, t);
  }

  lemma NonePlanned(addresses: seq<PhysicalAddress>, meta: HierarchyMetadata)
    ensures PlannedSoFar(addresses, meta, PlannedBelow(addresses, LAYER_SEGMENT), map[], map[])
  {}

  /** The lists of a plan, sorted. */
  function Assembled(addresses: seq<PhysicalAddress>, plans: map<TreeRef, TreePlan>,
                     children: map<Slot, TreeRef>): ProofPlan {
    var trees := SortTrees(plans.Keys);
    assert forall i :: 0 <= i < |trees| ==> trees[i] in trees;
    ProofPlan(addresses,
              seq(|trees|, i requires 0 <= i < |trees| => plans[trees[i]]),
              SortLinks(set s | s in children :: ParentLink(children[s], s.parent, s.index)))
  }

  lemma AllPlanned(addresses: seq<PhysicalAddress>, meta: HierarchyMetadata, plans: map<TreeRef, TreePlan>,
                   children: map<Slot, TreeRef>)
    requires addresses != []
    requires PlannedSoFar(addresses, meta, PlannedBelow(addresses, LAYER_GLOBAL + 1), plans, children)
    ensures Plannable(addresses, meta) && Assembled(addresses, plans, children) == PlanOf(addresses, meta)
  {
    hide PlannedBelow, TreePlannable, PlanFor, PlannedSoFar, SameSlot, PlannedAt, SortLinks;
    SoPlannable(addresses, meta, plans, children);
    LinksAssembled(addresses, meta, plans, children);
    var a, b := Assembled(addresses, plans, children), PlanOf(addresses, meta);
    assert plans.Keys == Planned(addresses);
    assert a.trees == b.trees;
  }

  lemma SoPlannable(addresses: seq<PhysicalAddress>, meta: HierarchyMetadata, plans: map<TreeRef, TreePlan>,
                    children: map<Slot, TreeRef>)
    requires addresses != []
    requires PlannedSoFar(addresses, meta, PlannedBelow(addresses, LAYER_GLOBAL + 1), plans, children)
    ensures Plannable(addresses, meta) && plans.Keys == Planned(addresses)
    ensures forall t :: t in plans ==> plans[t] == PlanFor(addresses, meta, t)
  {
    hide PlannedBelow, TreePlannable, PlanFor, SlotFor;
  }

  lemma LinksAssembled(addresses: seq<PhysicalAddress>, meta: HierarchyMetadata, plans: map<TreeRef, TreePlan>,
                       children: map<Slot, TreeRef>)
    requires PlannedSoFar(addresses, meta, PlannedBelow(addresses, LAYER_GLOBAL + 1), plans, children)
    ensures (set s | s in children :: ParentLink(children[s], s.parent, s.index))
         == (set t | t in Planned(addresses) && t != GLOBAL_TREE :: LinkFor(meta, t))
  {
    hide PlannedBelow, TreePlannable, PlanFor, SlotFor;
    var made := set s | s in children :: ParentLink(children[s], s.parent, s.index);
    var wanted := set t | t in Planned(addresses) && t != GLOBAL_TREE :: LinkFor(meta, t);
    forall l | l in made ensures l in wanted {
      var s :| s in children && l == ParentLink(children[s], s.parent, s.index);
      assert l == LinkFor(meta, children[s]);
    }
    forall l | l in wanted ensures l in made {
      var t :| t in Planned(addresses) && t != GLOBAL_TREE && l == LinkFor(meta, t);
      assert SlotFor(meta, t) in children;
    }
  }

  /** `todo` is what is left of a layer when `done` is planned. */
  ghost predicate PlanState(addresses: seq<PhysicalAddress>, layer: int, done: set<TreeRef>, todo: set<TreeRef>) {
    && (forall t :: t in todo ==> t in PlannedAt(addresses, layer) && t !in done)
    && (forall t :: t in done ==> t in PlannedBelow(addresses, layer + 1))
    && (forall t :: t in PlannedBelow(addresses, layer + 1) ==> t in done || t in todo)
  }

  method PlanLayer(addresses: seq<PhysicalAddress>, meta: HierarchyMetadata, layer: int,
                   plans0: map<TreeRef, TreePlan>, children0: map<Slot, TreeRef>)
    returns (ok: bool, plans: map<TreeRef, TreePlan>, children: map<Slot, TreeRef>)
    requires LAYER_SEGMENT <= layer <= LAYER_GLOBAL
    requires forall t :: t in PlannedAt(addresses, LAYER_SEGMENT) ==> t in meta.trees && meta.trees[t].sealed
    requires PlannedSoFar(addresses, meta, PlannedBelow(addresses, layer), plans0, children0)
    ensures ok ==> PlannedSoFar(addresses, meta, PlannedBelow(addresses, layer + 1), plans, children)
    ensures !ok ==> !Plannable(addresses, meta)
  {
    hide PlannedSoFar, TreePlannable, PlanState, Plannable;
    ok, plans, children := true, plans0, children0;
    var todo := Reached(addresses, layer, children);
    ghost var done := PlannedBelow(addresses, layer);
    LayerReached(addresses, meta, layer, plans, children);
    while todo != {}
      invariant PlanState(addresses, layer, done, todo)
      invariant PlannedSoFar(addresses, meta, done, plans, children)
    {
      var t :| t in todo;
      NextPlanned(addresses, layer, done, todo, t);
      ok, plans, children := PlanOne(addresses, meta, t, plans, children, done);
      if !ok { return; }
      todo, done := todo - {t}, done + {t};
    }
    LayerPlanned(addresses, layer, done);
  }

  /** The trees of a layer: the requested Segments, or the parents of the layer below. */
  function Reached(addresses: seq<PhysicalAddress>, layer: int, children: map<Slot, TreeRef>): set<TreeRef> {
    if layer == LAYER_SEGMENT then set a | a in addresses :: SegmentOf(a)
    else set s | s in children && s.parent.layer == layer :: s.parent
  }

  lemma LayerReached(addresses: seq<PhysicalAddress>, meta: HierarchyMetadata, layer: int,
                     plans: map<TreeRef, TreePlan>, children: map<Slot, TreeRef>)
    requires LAYER_SEGMENT <= layer <= LAYER_GLOBAL
    requires PlannedSoFar(addresses, meta, PlannedBelow(addresses, layer), plans, children)
    ensures PlanState(addresses, layer, PlannedBelow(addresses, layer), Reached(addresses, layer, children))
  {
    hide TreePlannable, PlanFor, PlannedSoFar, Reached, PlannedAt;
    forall t | t in Reached(addresses, layer, children) ensures t in PlannedAt(addresses, layer) {
      ReachedPlanned(addresses, meta, layer, plans, children, t);
    }
    forall t | t in PlannedAt(addresses, layer) ensures t in Reached(addresses, layer, children) {
      PlannedReached(addresses, meta, layer, plans, children, t);
    }
  }

  lemma ReachedPlanned(addresses: seq<PhysicalAddress>, meta: HierarchyMetadata, layer: int,
                       plans: map<TreeRef, TreePlan>, children: map<Slot, TreeRef>, t: TreeRef)
    requires LAYER_SEGMENT <= layer <= LAYER_GLOBAL && t in Reached(addresses, layer, children)
    requires PlannedSoFar(addresses, meta, PlannedBelow(addresses, layer), plans, children)
    ensures t in PlannedAt(addresses, layer)
  {
    hide TreePlannable, PlanFor, PlannedBelow, PlannedAt, PlannedSoFar;
    if layer > LAYER_SEGMENT {
      var s :| s in children && s.parent.layer == layer && s.parent == t;
      var c := children[s];
      ChildPlanned(addresses, meta, PlannedBelow(addresses, layer), plans, children, s);
      OnlyGlobal(addresses, c);
      ParentPlanned(addresses, c, layer);
    } else {
      SegmentsPlanned(addresses, t, children);
    }
  }

  lemma ChildPlanned(addresses: seq<PhysicalAddress>, meta: HierarchyMetadata, done: set<TreeRef>,
                     plans: map<TreeRef, TreePlan>, children: map<Slot, TreeRef>, s: Slot)
    requires PlannedSoFar(addresses, meta, done, plans, children) && s in children
    ensures children[s] in done && children[s] != GLOBAL_TREE && s.parent == ParentTree(children[s])
  {
    hide TreePlannable, PlanFor;
  }

  lemma SegmentsPlanned(addresses: seq<PhysicalAddress>, t: TreeRef, children: map<Slot, TreeRef>)
    ensures t in Reached(addresses, LAYER_SEGMENT, children) <==> t in PlannedAt(addresses, LAYER_SEGMENT)
  {}

  lemma ParentPlanned(addresses: seq<PhysicalAddress>, c: TreeRef, layer: int)
    requires LAYER_SEGMENT < layer && c in PlannedAt(addresses, layer - 1)
    ensures ParentTree(c) in PlannedAt(addresses, layer)
  {}

  lemma PlannedReached(addresses: seq<PhysicalAddress>, meta: HierarchyMetadata, layer: int,
                       plans: map<TreeRef, TreePlan>, children: map<Slot, TreeRef>, t: TreeRef)
    requires LAYER_SEGMENT <= layer <= LAYER_GLOBAL && t in PlannedAt(addresses, layer)
    requires PlannedSoFar(addresses, meta, PlannedBelow(addresses, layer), plans, children)
    ensures t in Reached(addresses, layer, children)
  {
    hide TreePlannable, PlanFor, PlannedBelow;
    if layer > LAYER_SEGMENT {
      var c :| c in PlannedAt(addresses, layer - 1) && ParentTree(c) == t;
      assert c in PlannedBelow(addresses, layer) && c != GLOBAL_TREE && SlotFor(meta, c) in children;
    }
  }

  lemma OnlyGlobal(addresses: seq<PhysicalAddress>, t: TreeRef)
    requires LAYER_SEGMENT <= t.layer <= LAYER_GLOBAL && t in PlannedAt(addresses, t.layer)
    ensures t.layer == LAYER_GLOBAL ==> t == GLOBAL_TREE
    ensures t.layer != LAYER_GLOBAL ==> ParentTree(t).layer == t.layer + 1
  {}

  lemma NextPlanned(addresses: seq<PhysicalAddress>, layer: int, done: set<TreeRef>, todo: set<TreeRef>, t: TreeRef)
    requires LAYER_SEGMENT <= layer <= LAYER_GLOBAL
    requires PlanState(addresses, layer, done, todo) && t in todo
    ensures t !in done && t.layer == layer && t in PlannedAt(addresses, layer)
    ensures PlanState(addresses, layer, done + {t}, todo - {t})
    ensures forall c :: c in done ==> LAYER_SEGMENT <= c.layer <= layer && c in PlannedAt(addresses, c.layer)
    ensures layer > LAYER_SEGMENT ==> forall c :: c in PlannedAt(addresses, layer - 1) ==> c in done
  {
    hide PlannedAt;
    if layer > LAYER_SEGMENT {
      forall c | c in PlannedAt(addresses, layer - 1) ensures c in done {
        assert c in PlannedBelow(addresses, layer + 1);
      }
    }
  }

  lemma LayerPlanned(addresses: seq<PhysicalAddress>, layer: int, done: set<TreeRef>)
    requires PlanState(addresses, layer, done, {})
    ensures done == PlannedBelow(addresses, layer + 1)
  {}

  /** The leaf positions of a tree that the plan needs. */
  function Gathered(addresses: seq<PhysicalAddress>, t: TreeRef, children: map<Slot, TreeRef>): set<int> {
    if t.layer == LAYER_SEGMENT then set a | a in addresses && SegmentOf(a) == t :: a.leafID
    else set s | s in children && s.parent == t :: s.index
  }

  /** Plans one tree and links it to its parent. */
  method PlanOne(addresses: seq<PhysicalAddress>, meta: HierarchyMetadata, t: TreeRef, plans0: map<TreeRef, TreePlan>,
                 children0: map<Slot, TreeRef>, ghost done: set<TreeRef>)
    returns (ok: bool, plans: map<TreeRef, TreePlan>, children: map<Slot, TreeRef>)
    requires LAYER_SEGMENT <= t.layer <= LAYER_GLOBAL && t !in done && t in PlannedAt(addresses, t.layer)
    requires t.layer == LAYER_SEGMENT ==> t in meta.trees && meta.trees[t].sealed
    requires forall c :: c in done ==> LAYER_SEGMENT <= c.layer <= t.layer && c in PlannedAt(addresses, c.layer)
    requires t.layer > LAYER_SEGMENT ==> forall c :: c in PlannedAt(addresses, t.layer - 1) ==> c in done
    requires PlannedSoFar(addresses, meta, done, plans0, children0)
    ensures ok ==> PlannedSoFar(addresses, meta, done + {t}, plans, children)
    ensures !ok ==> !Plannable(addresses, meta)
  {
    hide PlannedSoFar, ValidTargets, PlannedTargets, Gathered, CanonicalPlan;
    ok, plans, children := false, plans0, children0;
    assert t in Planned(addresses);
    if t != GLOBAL_TREE && t !in meta.trees { return; }
    TargetsGathered(addresses, meta, t, plans, children, done);
    var plan := PlanTree(t, LeafCountOf(meta, t), Gathered(addresses, t, children));
    if plan.Err? { return; }
    if t != GLOBAL_TREE {
      var slot := SlotFor(meta, t);
      if slot in children && children[slot] != t {
        SlotTaken(addresses, meta, t, plans, children, done);
        return;
      }
      children := children[slot := t];
    }
    plans := plans[t := plan.value];
    ok := true;
    TreeAdded(addresses, meta, t, plans0, children0, done);
  }

  lemma TargetsGathered(addresses: seq<PhysicalAddress>, meta: HierarchyMetadata, t: TreeRef,
                        plans: map<TreeRef, TreePlan>, children: map<Slot, TreeRef>, done: set<TreeRef>)
    requires LAYER_SEGMENT <= t.layer <= LAYER_GLOBAL && t in PlannedAt(addresses, t.layer)
    requires forall c :: c in done ==> LAYER_SEGMENT <= c.layer <= t.layer && c in PlannedAt(addresses, c.layer)
    requires t.layer > LAYER_SEGMENT ==> forall c :: c in PlannedAt(addresses, t.layer - 1) ==> c in done
    requires PlannedSoFar(addresses, meta, done, plans, children)
    ensures Gathered(addresses, t, children) == PlannedTargets(addresses, meta, t)
  {
    hide TreePlannable, PlanFor, PlannedAt, PlannedSoFar, Gathered, PlannedTargets;
    if t.layer > LAYER_SEGMENT {
      forall i ensures i in Gathered(addresses, t, children) <==> i in PlannedTargets(addresses, meta, t) {
        if i in Gathered(addresses, t, children) { GatheredPlanned(addresses, meta, t, plans, children, done, i); }
        if i in PlannedTargets(addresses, meta, t) { PlannedGathered(addresses, meta, t, plans, children, done, i); }
      }
    } else {
      SegmentGathered(addresses, meta, t, children);
    }
  }

  lemma SegmentGathered(addresses: seq<PhysicalAddress>, meta: HierarchyMetadata, t: TreeRef, children: map<Slot,
                        TreeRef>)
    requires t.layer == LAYER_SEGMENT
    ensures Gathered(addresses, t, children) == PlannedTargets(addresses, meta, t)
  {}

  lemma GatheredPlanned(addresses: seq<PhysicalAddress>, meta: HierarchyMetadata, t: TreeRef,
                        plans: map<TreeRef, TreePlan>, children: map<Slot, TreeRef>, done: set<TreeRef>, i: int)
    requires LAYER_SEGMENT <= t.layer <= LAYER_GLOBAL && t in PlannedAt(addresses, t.layer)
    requires forall c :: c in done ==> LAYER_SEGMENT <= c.layer <= t.layer && c in PlannedAt(addresses, c.layer)
    requires t.layer > LAYER_SEGMENT ==> forall c :: c in PlannedAt(addresses, t.layer - 1) ==> c in done
    requires PlannedSoFar(addresses, meta, done, plans, children)
    requires t.layer > LAYER_SEGMENT && i in Gathered(addresses, t, children)
    ensures i in PlannedTargets(addresses, meta, t)
  {
    hide TreePlannable, PlanFor, PlannedAt;
    var s :| s in children && s.parent == t && s.index == i;
    OnlyGlobal(addresses, children[s]);
  }

  lemma PlannedGathered(addresses: seq<PhysicalAddress>, meta: HierarchyMetadata, t: TreeRef,
                        plans: map<TreeRef, TreePlan>, children: map<Slot, TreeRef>, done: set<TreeRef>, i: int)
    requires LAYER_SEGMENT <= t.layer <= LAYER_GLOBAL && t in PlannedAt(addresses, t.layer)
    requires forall c :: c in done ==> LAYER_SEGMENT <= c.layer <= t.layer && c in PlannedAt(addresses, c.layer)
    requires t.layer > LAYER_SEGMENT ==> forall c :: c in PlannedAt(addresses, t.layer - 1) ==> c in done
    requires PlannedSoFar(addresses, meta, done, plans, children)
    requires t.layer > LAYER_SEGMENT && i in PlannedTargets(addresses, meta, t)
    ensures i in Gathered(addresses, t, children)
  {
    hide TreePlannable, PlanFor, PlannedAt;
    var c :| c in PlannedAt(addresses, t.layer - 1) && ParentTree(c) == t && SlotFor(meta, c).index == i;
    assert SlotFor(meta, c) in children;
  }

  lemma SlotTaken(addresses: seq<PhysicalAddress>, meta: HierarchyMetadata, t: TreeRef, plans: map<TreeRef, TreePlan>,
                  children: map<Slot, TreeRef>, done: set<TreeRef>)
    requires LAYER_SEGMENT <= t.layer <= LAYER_GLOBAL && t in PlannedAt(addresses, t.layer) && t != GLOBAL_TREE
    requires forall c :: c in done ==> LAYER_SEGMENT <= c.layer <= LAYER_GLOBAL && c in PlannedAt(addresses, c.layer)
    requires PlannedSoFar(addresses, meta, done, plans, children)
    requires SlotFor(meta, t) in children && children[SlotFor(meta, t)] != t
    ensures !Plannable(addresses, meta)
  {
    hide TreePlannable, PlanFor, SlotFor, PlannedAt;
    var c := children[SlotFor(meta, t)];
    assert c in Planned(addresses) && t in Planned(addresses) && SameSlot(meta, c, t);
  }

  lemma TreeAdded(addresses: seq<PhysicalAddress>, meta: HierarchyMetadata, t: TreeRef, plans: map<TreeRef, TreePlan>,
                  children: map<Slot, TreeRef>, done: set<TreeRef>)
    requires PlannedSoFar(addresses, meta, done, plans, children) && t !in done && TreePlannable(addresses, meta, t)
    requires t != GLOBAL_TREE && SlotFor(meta, t) in children ==> children[SlotFor(meta, t)] == t
    ensures PlannedSoFar(addresses, meta, done + {t}, plans[t := PlanFor(addresses, meta, t)],
                         if t == GLOBAL_TREE then children else children[SlotFor(meta, t) := t])
  {
    hide TreePlannable, PlanFor, SlotFor;
  }
}
