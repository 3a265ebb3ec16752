/** Each node a proof needs is asked for once (internal/hpp/planner.go:201-272). */
module RequestCounts {
  import opened Merkle
  import opened Sorting
  import opened ProofTypes
  import opened TreePlanning
  import opened ProofInputs
  import opened Planner
  import opened Requests
  import opened NodeRows
  import opened ProofBuilding

  // ---- How often the plans of a list want a node ----

  lemma {:induction false} WantedParts(trees: seq<TreePlan>, ref: NodeRef)
    ensures multiset(Wanted(SegmentPlans(trees)))[ref] + multiset(Wanted(UpperPlans(trees)))[ref]
      == multiset(Wanted(trees))[ref]
    decreases |trees|
  {
    hide Wanted, WantedOf, SegmentPlans, UpperPlans;
    if trees == [] {
      NoneWanted();
      NothingWanted();
    } else {
      var rest, last := trees[..|trees| - 1], trees[|trees| - 1];
      WantedParts(rest, ref);
      assert rest + [last] == trees;
      WantedSnoc(rest, last);
      LastPart(rest, last, ref);
    }
  }

  lemma NothingWanted()
    ensures Wanted([]) == []
  {}

  lemma LastPart(rest: seq<TreePlan>, last: TreePlan, ref: NodeRef)
    ensures multiset(Wanted(SegmentPlans(rest + [last])))[ref] + multiset(Wanted(UpperPlans(rest + [last])))[ref]
         == multiset(Wanted(SegmentPlans(rest)))[ref] + multiset(Wanted(UpperPlans(rest)))[ref]
           + multiset(WantedOf(last))[ref]
  {
    hide Wanted, WantedOf;
    assert (rest + [last])[..|rest|] == rest;
    WantedSnoc(SegmentPlans(rest), last);
    WantedSnoc(UpperPlans(rest), last);
    assert SegmentPlans(rest) + [] == SegmentPlans(rest) && UpperPlans(rest) + [] == UpperPlans(rest);
  }

  /** A plan wants only nodes of its own tree, and none twice. */
  ghost predicate WantsOnce(plan: TreePlan) {
    forall ref :: multiset(WantedOf(plan))[ref] <= if ref.tree == plan.tree then 1 else 0
  }

  /** If the trees are distinct, no node is wanted twice. */
  lemma {:induction false} TreesWantOnce(trees: seq<TreePlan>, ref: NodeRef)
    requires (forall i, j :: 0 <= i < j < |trees| ==> trees[i].tree != trees[j].tree)
      && forall i :: 0 <= i < |trees| ==> WantsOnce(trees[i])
    ensures multiset(Wanted(trees))[ref] <= 1
    ensures (forall i :: 0 <= i < |trees| ==> trees[i].tree != ref.tree) ==> multiset(Wanted(trees))[ref] == 0
    decreases |trees|
  {
    hide WantedOf, Wanted;
    if trees == [] {
      NothingWanted();
    } else {
      var rest, last := trees[..|trees| - 1], trees[|trees| - 1];
      assert forall i :: 0 <= i < |rest| ==> rest[i] == trees[i];
      TreesWantOnce(rest, ref);
      assert rest + [last] == trees;
      WantedSnoc(rest, last);
      assert WantsOnce(last);
      assert multiset(Wanted(trees))[ref] == multiset(Wanted(rest))[ref] + multiset(WantedOf(last))[ref];
    }
  }

  // ---- One plan ----

  lemma DistinctCount<T(!new)>(s: seq<T>, x: T)
    requires Distinct(s)
    ensures multiset(s)[x] <= 1
    decreases |s|
  {
    if s != [] {
      var rest := s[1..];
      DistinctCount(rest, x);
      assert s == [s[0]] + rest;
      assert x == s[0] ==> x !in rest;
    }
  }

  lemma TargetsOnce(plan: TreePlan, ref: NodeRef)
    requires Ascending(plan.targets)
    ensures multiset(TargetRefs(plan))[ref] <= 1
    ensures ref in TargetRefs(plan) ==>
      ref.tree == plan.tree && ref.position.level == 0 && ref.position.index in plan.targets
  {
    DistinctCount(TargetRefs(plan), ref);
  }

  lemma RequiredOnce(plan: TreePlan, ref: NodeRef)
    requires Sorted(PositionLess, plan.required)
    ensures multiset(RequiredRefs(plan))[ref] <= 1
    ensures ref in RequiredRefs(plan) ==> ref.tree == plan.tree && ref.position in plan.required
  {
    hide PositionLess;
    PositionOrder();
    forall i, j | 0 <= i < j < |plan.required| ensures plan.required[i] != plan.required[j] {
      assert PositionLess(plan.required[i], plan.required[j]);
    }
    DistinctCount(RequiredRefs(plan), ref);
  }

  lemma CanonicalWantsOnce(tree: TreeRef, leafCount: int, targets: set<int>)
    requires ValidTargets(leafCount, targets)
    ensures WantsOnce(CanonicalPlan(tree, leafCount, targets))
  {
    hide TargetRefs, RequiredRefs, Width, Height;
    var plan := CanonicalPlan(tree, leafCount, targets);
    forall ref: NodeRef ensures multiset(WantedOf(plan))[ref] <= if ref.tree == plan.tree then 1 else 0 {
      TargetsOnce(plan, ref);
      RequiredOnce(plan, ref);
      TargetNotNeeded(leafCount, targets, ref.position);
      assert ref in multiset(TargetRefs(plan)) <==> ref in TargetRefs(plan);
      assert ref in multiset(RequiredRefs(plan)) <==> ref in RequiredRefs(plan);
    }
  }

  lemma TargetNotNeeded(leafCount: int, targets: set<int>, p: Position)
    requires leafCount > 0
    ensures p.level == 0 && p.index in targets ==> !Needed(leafCount, targets, p)
  {
    hide Width, Height;
  }

  // ---- The plan for a list of addresses ----

  /** The requests built for the plan ask for each requested leaf and each required node once, and for nothing else. */
  ghost predicate AskedOnce(addresses: seq<PhysicalAddress>, meta: HierarchyMetadata)
    requires Plannable(addresses, meta)
  {
    forall segments, uppers, ref :: AsksPlan(PlanOf(addresses, meta).trees, segments, uppers) ==>
      TimesAsked(segments, ref) + TimesAsked(uppers, ref)
        == if ref in LeafRefs(addresses) + RequiredSet(addresses, meta) then 1 else 0
  }

  /** What BuildRequests returns for the plans. */
  ghost predicate AsksPlan(trees: seq<TreePlan>, segments: seq<NodeRequest>, uppers: seq<NodeRequest>) {
    Asks(segments, Wanted(SegmentPlans(trees))) && Asks(uppers, Wanted(UpperPlans(trees)))
  }

  lemma PlansAskOnce(addresses: seq<PhysicalAddress>, meta: HierarchyMetadata)
    requires Plannable(addresses, meta)
    ensures AskedOnce(addresses, meta)
  {
    hide Plannable, PlanOf, Asks, Wanted, SegmentPlans, UpperPlans, LeafRefs, RequiredSet, TimesAsked;
    var trees := PlanOf(addresses, meta).trees;
    forall segments, uppers, ref | AsksPlan(trees, segments, uppers)
      ensures TimesAsked(segments, ref) + TimesAsked(uppers, ref)
        == if ref in LeafRefs(addresses) + RequiredSet(addresses, meta) then 1 else 0
    {
      AsksTimes(segments, Wanted(SegmentPlans(trees)), ref);
      AsksTimes(uppers, Wanted(UpperPlans(trees)), ref);
      PlanWantsOnce(addresses, meta, ref);
    }
  }

  lemma PlanWantsOnce(addresses: seq<PhysicalAddress>, meta: HierarchyMetadata, ref: NodeRef)
    requires Plannable(addresses, meta)
    ensures var trees := PlanOf(addresses, meta).trees;
      multiset(Wanted(SegmentPlans(trees)))[ref] + multiset(Wanted(UpperPlans(trees)))[ref]
      == if ref in LeafRefs(addresses) + RequiredSet(addresses, meta) then 1 else 0
  {
    hide Plannable, PlanOf, Wanted, SegmentPlans, UpperPlans, LeafRefs, RequiredSet, WantsOnce;
    var trees := PlanOf(addresses, meta).trees;
    WantedParts(trees, ref);
    PlansDistinct(addresses, meta);
    TreesWantOnce(trees, ref);
    RequestsCover(addresses, meta);
    assert ref in multiset(Wanted(SegmentPlans(trees))) <==> ref in Wanted(SegmentPlans(trees));
    assert ref in multiset(Wanted(UpperPlans(trees))) <==> ref in Wanted(UpperPlans(trees));
  }

  lemma PlansDistinct(addresses: seq<PhysicalAddress>, meta: HierarchyMetadata)
    requires Plannable(addresses, meta)
    ensures var trees := PlanOf(addresses, meta).trees;
      (forall i, j :: 0 <= i < j < |trees| ==> trees[i].tree != trees[j].tree)
      && forall i :: 0 <= i < |trees| ==> WantsOnce(trees[i])
  {
    hide WantsOnce, Planned, TreePlannable, PlanFor, SortLinks, SameSlot;
    var trees, sorted := PlanOf(addresses, meta).trees, SortTrees(Planned(addresses));
    SortedPlannable(addresses, meta);
    forall i | 0 <= i < |trees| ensures WantsOnce(trees[i]) && trees[i].tree == sorted[i] {
      TreeWantsOnce(addresses, meta, sorted[i]);
    }
    SortedDistinct(sorted);
  }

  lemma TreeWantsOnce(addresses: seq<PhysicalAddress>, meta: HierarchyMetadata, t: TreeRef)
    requires TreePlannable(addresses, meta, t)
    ensures WantsOnce(PlanFor(addresses, meta, t)) && PlanFor(addresses, meta, t).tree == t
  {
    hide WantsOnce, CanonicalPlan;
    CanonicalWantsOnce(t, LeafCountOf(meta, t), PlannedTargets(addresses, meta, t));
    PlanNamed(addresses, meta, t);
  }

  lemma SortedDistinct(sorted: seq<TreeRef>)
    requires Sorted(TreeRefLess, sorted)
    ensures forall i, j :: 0 <= i < j < |sorted| ==> sorted[i] != sorted[j]
  {
    hide TreeRefLess;
    TreeRefOrder();
    forall i, j | 0 <= i < j < |sorted| ensures sorted[i] != sorted[j] { assert TreeRefLess(sorted[i], sorted[j]); }
  }

  // ---- The rows the requests read ----

  /** Each row the requests ask for is there, with the stored hash of its node. */
  ghost predicate Answered(rows: Rows, requests: seq<NodeRequest>, storage: Storage) {
    forall i, x :: 0 <= i < |requests| && x in requests[i].nodeIndexes ==>
      RowAnswers(rows, requests[i].key, x, storage)
  }

  ghost predicate RowAnswers(rows: Rows, key: RequestKey, x: int, storage: Storage) {
    && RowAsked(key, x) in rows && IsStored(storage, RefFor(key, x))
    && rows[RowAsked(key, x)] == StoredHash(storage, RefFor(key, x))
  }

  /** Whatever requests are built for the plan, the rows of the storage answer all of them. */
  ghost predicate RowsServe(storage: Storage, addresses: seq<PhysicalAddress>)
    requires Plannable(addresses, storage.meta)
  {
    forall rows, segments, uppers ::
      RowsFor(rows, storage.nodes) && AsksPlan(PlanOf(addresses, storage.meta).trees, segments, uppers) ==>
        Answered(rows, segments + uppers, storage)
  }

  lemma StoredRowsServe(storage: Storage, addresses: seq<PhysicalAddress>)
    requires Plannable(addresses, storage.meta) && AllStored(storage, addresses)
    ensures RowsServe(storage, addresses)
  {
    hide Plannable, AllStored, PlanOf, Asks, Wanted, SegmentPlans, UpperPlans, RowsFor, Answered, AllKeyed, AskedRefs;
    forall rows, segments, uppers
      | RowsFor(rows, storage.nodes) && AsksPlan(PlanOf(addresses, storage.meta).trees, segments, uppers)
      ensures Answered(rows, segments + uppers, storage)
    {
      PlanFetched(addresses, storage.meta, segments, uppers);
      KeyedAnswered(rows, segments + uppers, storage, addresses);
    }
  }

  lemma KeyedAnswered(rows: Rows, requests: seq<NodeRequest>, storage: Storage, addresses: seq<PhysicalAddress>)
    requires Plannable(addresses, storage.meta) && AllStored(storage, addresses)
    requires RowsFor(rows, storage.nodes) && AllKeyed(requests)
    requires AskedRefs(requests) == LeafRefs(addresses) + RequiredSet(addresses, storage.meta)
    ensures Answered(rows, requests, storage)
  {
    hide Plannable, RowsFor, AllKeyed, AskedRefs, IsStored, StoredHash, RowAsked, RefFor, LeafRefs, RequiredSet;
    forall i, x | 0 <= i < |requests| && x in requests[i].nodeIndexes
      ensures RowAnswers(rows, requests[i].key, x, storage)
    {
      var j :| 0 <= j < |requests[i].nodeIndexes| && requests[i].nodeIndexes[j] == x;
      RowRead(rows, storage, requests, i, j);
    }
  }
}
