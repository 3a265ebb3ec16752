/** The proof verifier (internal/hpp/verifier.go): checks a proof against the requested
    addresses and recomputes every tree's root, layer by layer. */
module Verifier {
  import opened Hashing
  import opened Merkle
  import opened Sorting
  import opened ProofTypes
  import opened TreePlanning
  import opened TreeFold
  import opened ProofInputs

  datatype ProofTrace = ProofTrace(
    globalRoot: Digest, rawRoots: map<TreeRef, Digest>, committedRoots: map<TreeRef, Digest>,
    nodes: map<NodeRef, Digest>)

  /** The roots and nodes recorded for the trees of `done`. */
  ghost predicate Evaluated(inp: Inputs, done: set<TreeRef>, trace: ProofTrace) {
    && (forall t :: t in done ==> t in inp.plans)
    && (forall t :: t in trace.rawRoots <==> t in done)
    && (forall t :: t in trace.committedRoots <==> t in done)
    && (forall t :: t in done ==> TreeEvaluated(inp, t, trace.rawRoots[t], trace.committedRoots[t]))
    && (forall r :: r in trace.nodes <==> r.tree in done && r.position in TreeTrace(inp, r.tree))
    && (forall r :: r in trace.nodes ==> trace.nodes[r] == TreeTrace(inp, r.tree)[r.position])
  }

  ghost predicate TreeEvaluated(inp: Inputs, t: TreeRef, rawRoot: Digest, committedRoot: Digest)
    requires t in inp.plans
  {
    rawRoot == RawRootOf(inp, t) && committedRoot == CommittedRoot(t, inp.plans[t].leafCount, rawRoot)
  }

  ghost predicate IsTraceOf(inp: Inputs, trace: ProofTrace) {
    && GLOBAL_TREE in inp.plans && trace.globalRoot == GlobalRootOf(inp)
    && Evaluated(inp, inp.plans.Keys, trace)
  }

  /** Binary search in canonical plan order. */
  method ContainsPosition(sorted: seq<Position>, position: Position) returns (found: bool)
    requires Sorted(PositionLess, sorted)
    ensures found <==> position in sorted
  {
    var low, high := 0, |sorted|;
    while low < high
      invariant 0 <= low <= high <= |sorted|
      invariant forall i :: 0 <= i < low ==> PositionLess(sorted[i], position)
      invariant forall i :: high <= i < |sorted| ==> !PositionLess(sorted[i], position)
    {
      var mid := (low + high) / 2;
      assert forall i :: mid < i < |sorted| ==> PositionLess(sorted[mid], sorted[i]);
      assert forall i :: 0 <= i < mid ==> PositionLess(sorted[i], sorted[mid]);
      if PositionLess(sorted[mid], position) { low := mid + 1; } else { high := mid; }
    }
    found := low < |sorted| && sorted[low] == position;
  }

  method ValidateTreePlanShape(plan: TreePlan) returns (ok: bool)
    ensures ok <==> ValidShape(plan)
  {
    hide NeededSet;
    var targets: set<int> := {};
    for i := 0 to |plan.targets|
      invariant forall j :: 0 <= j < i ==> plan.targets[j] in targets
      invariant forall t :: t in targets ==> exists j :: 0 <= j < i && plan.targets[j] == t
    {
      var target := plan.targets[i];
      if target in targets {
        DuplicateTarget(plan, i);
        return false;
      }
      targets := targets + {target};
    }
    assert forall t: int :: t in targets <==> t in plan.targets;
    assert targets == TargetSet(plan);
    var canonical := PlanTree(plan.tree, plan.leafCount, targets);
    return canonical.Ok? && canonical.value.targets == plan.targets && canonical.value.required == plan.required;
  }

  lemma DuplicateTarget(plan: TreePlan, i: nat)
    requires i < |plan.targets| && exists j :: 0 <= j < i && plan.targets[j] == plan.targets[i]
    ensures !ValidShape(plan)
  {
    assert ValidShape(plan) ==> Ascending(plan.targets);
  }

  /** The requested addresses must be the planned ones, each with one leaf. */
  method ValidateProofLeaves(planned: seq<PhysicalAddress>, requested: seq<PhysicalAddress>, leaves: seq<RequestedLeaf>)
    returns (r: Result<map<PhysicalAddress, Digest>>)
    ensures r.Ok? <==>
      && Normalized(requested) == Ok(planned) && Distinct(AddressesOf(leaves)) && |leaves| == |planned|
      && forall a :: a in planned ==> a in AddressesOf(leaves)
    ensures r.Ok? ==> r.value == ToMap(AddressesOf(leaves), LeafHashesOf(leaves))
  {
    hide Normalized, Distinct, AddressesOf, LeafHashesOf;
    var normalized :- NormalizeAddresses(requested);
    if normalized != planned { return Err; }
    var result :- CollectLeaves(leaves);
    if |result| != |planned| { return Err; }
    if exists a :: a in planned && a !in result { return Err; }
    return Ok(result);
  }

  method CollectLeaves(leaves: seq<RequestedLeaf>) returns (r: Result<map<PhysicalAddress, Digest>>)
    ensures r.Ok? <==> Distinct(AddressesOf(leaves))
    ensures r.Ok? ==> r.value == ToMap(AddressesOf(leaves), LeafHashesOf(leaves)) && |r.value| == |leaves|
  {
    var keys, values := AddressesOf(leaves), LeafHashesOf(leaves);
    var result: map<PhysicalAddress, Digest> := map[];
    for i := 0 to |leaves|
      invariant Collected(keys, values, i, result) && |result| == i
    {
      hide Collected, ToMap;
      if keys[i] in result {
        Repeated(keys, values, i, result);
        return Err;
      }
      CollectedNext(keys, values, i, result);
      result := result[keys[i] := values[i]];
    }
    CollectedAll(keys, values, result);
    return Ok(result);
  }

  lemma CollectedNext<K(!new), V>(keys: seq<K>, values: seq<V>, n: nat, m: map<K, V>)
    requires n < |keys| == |values| && Collected(keys, values, n, m) && keys[n] !in m
    ensures Collected(keys, values, n + 1, m[keys[n] := values[n]])
  {}

  lemma Repeated<K(!new), V>(keys: seq<K>, values: seq<V>, n: nat, m: map<K, V>)
    requires n < |keys| == |values| && Collected(keys, values, n, m) && keys[n] in m
    ensures !Distinct(keys)
  {
    var j :| 0 <= j < n && keys[j] == keys[n];
  }

  method CollectPlans(trees: seq<TreePlan>) returns (r: Result<map<TreeRef, TreePlan>>)
    ensures r.Ok? <==> Distinct(TreesOf(trees)) && PlansValid(ToMap(TreesOf(trees), trees))
    ensures r.Ok? ==> r.value == ToMap(TreesOf(trees), trees)
  {
    hide ValidShape;
    var keys := TreesOf(trees);
    var plans: map<TreeRef, TreePlan> := map[];
    for i := 0 to |trees|
      invariant Collected(keys, trees, i, plans)
      invariant forall t :: t in plans ==> plans[t].tree == t && ValidShape(plans[t])
    {
      if trees[i].tree in plans {
        Repeated(keys, trees, i, plans);
        return Err;
      }
      var ok := ValidateTreePlanShape(trees[i]);
      if !ok {
        if Distinct(keys) { assert keys[i] in ToMap(keys, trees) && ToMap(keys, trees)[keys[i]] == trees[i]; }
        return Err;
      }
      plans := plans[trees[i].tree := trees[i]];
    }
    CollectedAll(keys, trees, plans);
    return Ok(plans);
  }

  method CollectNodes(plans: map<TreeRef, TreePlan>, list: seq<ProofNode>) returns (r: Result<map<NodeRef, Digest>>)
    requires PlansValid(plans)
    ensures r.Ok? <==> Distinct(RefsOf(list)) && NodesPlanned(plans, ToMap(RefsOf(list), NodeHashesOf(list)))
    ensures r.Ok? ==> r.value == ToMap(RefsOf(list), NodeHashesOf(list))
  {
    hide ToMap, Distinct, RefsOf, NodeHashesOf, OnlyPlanned, PlansValid;
    var nodes :- ExpectNodes(plans, list);
    if exists t, i :: t in plans && 0 <= i < |plans[t].required| && NodeRef(t, plans[t].required[i]) !in nodes {
      return Err;
    }
    return Ok(nodes);
  }

  method ExpectNodes(plans: map<TreeRef, TreePlan>, list: seq<ProofNode>) returns (r: Result<map<NodeRef, Digest>>)
    requires PlansValid(plans)
    ensures r.Ok? <==> Distinct(RefsOf(list)) && OnlyPlanned(plans, ToMap(RefsOf(list), NodeHashesOf(list)))
    ensures r.Ok? ==> r.value == ToMap(RefsOf(list), NodeHashesOf(list))
  {
    hide ValidShape, Collected, ToMap, IsPlanned;
    var keys, values := RefsOf(list), NodeHashesOf(list);
    var nodes: map<NodeRef, Digest> := map[];
    NoneCollected(keys, values);
    for i := 0 to |list|
      invariant Collected(keys, values, i, nodes)
      invariant OnlyPlanned(plans, nodes)
    {
      var expected := ExpectNode(plans, keys[i]);
      if !expected { return Err; }
      if keys[i] in nodes {
        Repeated(keys, values, i, nodes);
        return Err;
      }
      CollectedNext(keys, values, i, nodes);
      nodes := nodes[keys[i] := values[i]];
    }
    CollectedAll(keys, values, nodes);
    return Ok(nodes);
  }

  method ExpectNode(plans: map<TreeRef, TreePlan>, ref: NodeRef) returns (expected: bool)
    requires PlansValid(plans)
    ensures expected <==> IsPlanned(plans, ref)
  {
    hide ValidShape;
    if ref.tree !in plans { return false; }
    RequiredSorted(plans[ref.tree]);
    expected := ContainsPosition(plans[ref.tree].required, ref.position);
  }

  lemma NoneCollected<K(!new), V>(keys: seq<K>, values: seq<V>)
    requires |keys| == |values|
    ensures Collected(keys, values, 0, map[])
  {}

  lemma RequiredSorted(plan: TreePlan)
    requires ValidShape(plan)
    ensures Sorted(PositionLess, plan.required)
  {}

  method CollectLinks(plans: map<TreeRef, TreePlan>, links: seq<ParentLink>) returns (r: Result<map<Slot, TreeRef>>)
    ensures r.Ok? <==>
      && Distinct(SlotsOf(links)) && Distinct(ChildrenOf(links))
      && LinksValid(plans, ToMap(SlotsOf(links), ChildrenOf(links)))
      && AllLinked(plans, ToMap(SlotsOf(links), ChildrenOf(links)))
    ensures r.Ok? ==> r.value == ToMap(SlotsOf(links), ChildrenOf(links))
  {
    hide Collected, ToMap, ValidParentLink;
    var keys, values := SlotsOf(links), ChildrenOf(links);
    var children: map<Slot, TreeRef> := map[];
    var parentOf: map<TreeRef, TreeRef> := map[];
    NoneCollected(keys, values);
    for i := 0 to |links|
      invariant Collected(keys, values, i, children)
      invariant LinksValid(plans, children)
      invariant forall c :: c in parentOf <==> exists j :: 0 <= j < i && values[j] == c
      invariant forall j, k :: 0 <= j < k < i ==> values[j] != values[k]
    {
      var link := links[i];
      assert keys[i] == Slot(link.parent, link.parentLeafIndex) && values[i] == link.child;
      if link.child !in plans || link.parent !in plans || !ValidParentLink(link.child, link.parent) {
        if Distinct(keys) { assert ToMap(keys, values)[keys[i]] == values[i]; }
        return Err;
      }
      if link.child in parentOf { return Err; }
      parentOf := parentOf[link.child := link.parent];
      var slot := Slot(link.parent, link.parentLeafIndex);
      if slot in children {
        Repeated(keys, values, i, children);
        return Err;
      }
      CollectedNext(keys, values, i, children);
      children := children[slot := link.child];
    }
    CollectedAll(keys, values, children);
    ParentsAreChildren(keys, values, children, parentOf);
    if exists t :: t in plans && !(if t.layer == LAYER_GLOBAL then t == GLOBAL_TREE else t in parentOf) { return Err; }
    return Ok(children);
  }

  lemma ParentsAreChildren(keys: seq<Slot>, values: seq<TreeRef>, children: map<Slot, TreeRef>,
                           parentOf: map<TreeRef, TreeRef>)
    requires |keys| == |values| && Collected(keys, values, |keys|, children)
    requires forall c :: c in parentOf <==> exists j :: 0 <= j < |keys| && values[j] == c
    ensures forall t :: t in parentOf <==> exists s :: s in children && children[s] == t
  {
    forall t ensures t in parentOf <==> exists s :: s in children && children[s] == t {
      if t in parentOf {
        var j :| 0 <= j < |keys| && values[j] == t;
        assert children[keys[j]] == t;
      }
      if exists s :: s in children && children[s] == t {
        var s :| s in children && children[s] == t;
        var j :| 0 <= j < |keys| && keys[j] == s;
        assert values[j] == t;
      }
    }
  }

  // ---- Evaluation ----

  /** The trees of the layers below one. */
  ghost function Below(inp: Inputs, layer: int): set<TreeRef> {
    set t | t in inp.plans && t.layer < layer
  }

  ghost predicate AllGiven(inp: Inputs, trees: set<TreeRef>) {
    forall t :: t in trees && t in inp.plans ==> TargetsGiven(inp, t)
  }

  /** Recomputes the trees layer by layer, children before parents. */
  method Evaluate(inp: Inputs) returns (r: Result<ProofTrace>)
    requires Static(inp)
    ensures r.Ok? <==> ValidInputs(inp)
    ensures r.Ok? ==> IsTraceOf(inp, r.value)
  {
    hide Evaluated, Static, AllGiven, TargetsGiven, Below, RawRootOf, CommittedRoot;
    var trace := ProofTrace(0, map[], map[], map[]);
    NoneEvaluated(inp, trace);
    for layer := LAYER_SEGMENT to LAYER_GLOBAL + 1
      invariant Evaluated(inp, Below(inp, layer), trace) && AllGiven(inp, Below(inp, layer))
    {
      var ok;
      ok, trace := EvaluateLayer(inp, layer, trace);
      if !ok { return Err; }
    }
    AllEvaluated(inp, trace);
    if GLOBAL_TREE !in trace.rawRoots { return Err; }
    trace := trace.(globalRoot := CommittedRoot(GLOBAL_TREE, inp.plans[GLOBAL_TREE].leafCount,
                                                trace.rawRoots[GLOBAL_TREE]));
    return Ok(trace);
  }

  lemma NoneEvaluated(inp: Inputs, trace: ProofTrace)
    requires Static(inp) && |trace.rawRoots| == |trace.committedRoots| == |trace.nodes| == 0
    ensures Evaluated(inp, Below(inp, LAYER_SEGMENT), trace) && AllGiven(inp, Below(inp, LAYER_SEGMENT))
  {
    hide TreeTrace, PlansValid, NodesPlanned, TreeEvaluated, TargetsGiven;
    forall t | t in inp.plans ensures t.layer >= LAYER_SEGMENT { KnownLayer(inp, t); }
  }

  /** Plans of other than the four layers are not linked. */
  lemma KnownLayer(inp: Inputs, t: TreeRef)
    requires Static(inp) && t in inp.plans
    ensures LAYER_SEGMENT <= t.layer <= LAYER_GLOBAL
    ensures t.layer == LAYER_GLOBAL ==> t == GLOBAL_TREE
  {
    hide PlansValid, NodesPlanned;
    if t.layer != LAYER_GLOBAL {
      var s :| s in inp.children && inp.children[s] == t;
    }
  }

  lemma AllEvaluated(inp: Inputs, trace: ProofTrace)
    requires Static(inp)
    requires Evaluated(inp, Below(inp, LAYER_GLOBAL + 1), trace) && AllGiven(inp, Below(inp, LAYER_GLOBAL + 1))
    ensures Evaluated(inp, inp.plans.Keys, trace)
    ensures GLOBAL_TREE in trace.rawRoots <==> ValidInputs(inp)
    ensures GLOBAL_TREE in trace.rawRoots ==>
      GLOBAL_TREE in inp.plans
      && GlobalRootOf(inp) == CommittedRoot(GLOBAL_TREE, inp.plans[GLOBAL_TREE].leafCount, trace.rawRoots[GLOBAL_TREE])
    ensures forall d :: Evaluated(inp, inp.plans.Keys, trace.(globalRoot := d))
  {
    hide TreeTrace, Static, TargetsGiven, RawRootOf, CommittedRoot;
    forall t | t in inp.plans ensures t in Below(inp, LAYER_GLOBAL + 1) { KnownLayer(inp, t); }
    assert Below(inp, LAYER_GLOBAL + 1) == inp.plans.Keys;
  }

  /** `todo` is what is left of a layer when `done` is evaluated. */
  ghost predicate LayerState(inp: Inputs, layer: int, done: set<TreeRef>, todo: set<TreeRef>) {
    && (forall t :: t in todo ==> t in inp.plans && t.layer == layer && t !in done)
    && (forall t :: t in done ==> t in inp.plans && t.layer <= layer)
    && (forall t :: t in inp.plans && t.layer < layer ==> t in done)
    && (forall t :: t in inp.plans && t.layer == layer ==> t in done || t in todo)
  }

  method EvaluateLayer(inp: Inputs, layer: int, trace0: ProofTrace) returns (ok: bool, trace: ProofTrace)
    requires Static(inp)
    requires Evaluated(inp, Below(inp, layer), trace0) && AllGiven(inp, Below(inp, layer))
    ensures ok ==> Evaluated(inp, Below(inp, layer + 1), trace) && AllGiven(inp, Below(inp, layer + 1))
    ensures !ok ==> !ValidInputs(inp)
  {
    hide Evaluated, Static, AllGiven, TargetsGiven, LayerState;
    ok, trace := true, trace0;
    var todo := set t | t in inp.plans && t.layer == layer;
    ghost var done := Below(inp, layer);
    StartLayer(inp, layer, todo);
    while todo != {}
      invariant LayerState(inp, layer, done, todo) && AllGiven(inp, done)
      invariant Evaluated(inp, done, trace)
    {
      var t :| t in todo;
      NextTree(inp, layer, done, todo, t);
      ok, trace := EvaluateTree(inp, t, trace, done);
      if !ok { return; }
      AlsoGiven(inp, done, t);
      todo, done := todo - {t}, done + {t};
    }
    LayerFinished(inp, layer, done);
  }

  lemma StartLayer(inp: Inputs, layer: int, todo: set<TreeRef>)
    requires todo == set t | t in inp.plans && t.layer == layer
    ensures LayerState(inp, layer, Below(inp, layer), todo)
  {}

  lemma NextTree(inp: Inputs, layer: int, done: set<TreeRef>, todo: set<TreeRef>, t: TreeRef)
    requires Static(inp) && LayerState(inp, layer, done, todo) && t in todo
    ensures t in inp.plans && t !in done && LayerState(inp, layer, done + {t}, todo - {t})
    ensures forall s :: s in inp.children && s.parent == t ==> inp.children[s] in done
  {
    hide PlansValid, NodesPlanned, AllLinked;
  }

  lemma AlsoGiven(inp: Inputs, done: set<TreeRef>, t: TreeRef)
    requires t in inp.plans && AllGiven(inp, done) && TargetsGiven(inp, t)
    ensures AllGiven(inp, done + {t})
  {}

  lemma LayerFinished(inp: Inputs, layer: int, done: set<TreeRef>)
    requires LayerState(inp, layer, done, {})
    ensures done == Below(inp, layer + 1)
  {}

  predicate ChildrenReady(inp: Inputs, t: TreeRef, rawRoots: map<TreeRef, Digest>) {
    forall s :: s in inp.children && s.parent == t ==> inp.children[s] in rawRoots && inp.children[s] in inp.plans
  }

  /** The leaves a tree is given, from the roots recomputed so far. */
  function GivenLeaves(inp: Inputs, t: TreeRef, rawRoots: map<TreeRef, Digest>): (m: map<int, Digest>)
    requires ChildrenReady(inp, t, rawRoots)
    ensures m.Keys == GivenTargets(inp, t)
    ensures t.layer == LAYER_SEGMENT ==> forall i :: i in m ==>
      LeafAddress(t, i) in inp.leaves && m[i] == inp.leaves[LeafAddress(t, i)]
    ensures t.layer != LAYER_SEGMENT ==> forall i :: i in m ==>
      Slot(t, i) in inp.children && m[i] == RootAt(inp, Slot(t, i), rawRoots)
  {
    assert forall s :: s in inp.children && s.parent == t ==> s == Slot(t, s.index);
    assert forall a :: a in inp.leaves && SegmentOf(a) == t ==> a == LeafAddress(t, a.leafID);
    if t.layer == LAYER_SEGMENT then
      map a | a in inp.leaves && SegmentOf(a) == t :: a.leafID := inp.leaves[a]
    else
      map s | s in inp.children && s.parent == t :: s.index := RootAt(inp, s, rawRoots)
  }

  /** The committed root of the child at a slot. */
  function RootAt(inp: Inputs, s: Slot, rawRoots: map<TreeRef, Digest>): Digest
    requires s in inp.children && inp.children[s] in inp.plans && inp.children[s] in rawRoots
  {
    CommittedRoot(inp.children[s], inp.plans[inp.children[s]].leafCount, rawRoots[inp.children[s]])
  }

  /** The nodes of one tree, as nodes of the forest. */
  function Tagged(t: TreeRef, nodes: map<Position, Digest>): (m: map<NodeRef, Digest>)
    ensures forall r :: r in m <==> r.tree == t && r.position in nodes
    ensures forall r :: r in m ==> m[r] == nodes[r.position]
  {
    assert forall r: NodeRef :: r == NodeRef(r.tree, r.position);
    map r | r in (set p | p in nodes :: NodeRef(t, p)) :: nodes[r.position]
  }

  /** Recomputes one tree; `ok` is false when it is not given exactly its targets. */
  method EvaluateTree(inp: Inputs, t: TreeRef, trace0: ProofTrace, ghost done: set<TreeRef>) returns (ok: bool,
                      trace: ProofTrace)
    requires Static(inp) && t in inp.plans && t !in done && Evaluated(inp, done, trace0)
    requires forall s :: s in inp.children && s.parent == t ==> inp.children[s] in done
    ensures ok <==> TargetsGiven(inp, t)
    ensures ok ==> Evaluated(inp, done + {t}, trace)
  {
    hide Evaluated, Static, TargetsGiven, GivenLeaves, KnownLeaves, Foldable, FoldRoot, FullTrace, CommittedRoot,
      ChildrenReady, SameNodes, NodesOf, Tagged, TreeTrace, RawRootOf;
    var plan := inp.plans[t];
    LeavesReady(inp, t, trace0, done);
    var known := GivenLeaves(inp, t, trace0.rawRoots);
    TargetsChecked(inp, t, known);
    if |known| != |plan.targets| || exists i :: 0 <= i < |plan.targets| && plan.targets[i] !in known {
      return false, trace0;
    }
    GivenFoldable(inp, t, known);
    var root, out := ReconstructTree(plan.leafCount, known, NodesOf(inp.nodes, t));
    var committed := CommittedRoot(t, plan.leafCount, root.value);
    trace := ProofTrace(0, trace0.rawRoots[t := root.value], trace0.committedRoots[t := committed],
                        trace0.nodes + Tagged(t, out));
    TreeRecorded(inp, done, t, trace0, root.value, out);
    return true, trace;
  }

  lemma LeavesReady(inp: Inputs, t: TreeRef, trace: ProofTrace, done: set<TreeRef>)
    requires Static(inp) && t in inp.plans && Evaluated(inp, done, trace)
    requires forall s :: s in inp.children && s.parent == t ==> inp.children[s] in done
    ensures ChildrenReady(inp, t, trace.rawRoots)
    ensures GivenLeaves(inp, t, trace.rawRoots) == KnownLeaves(inp, t)
  {
    hide TreeTrace, PlansValid, NodesPlanned, AllLinked, RawRootOf, CommittedRoot, KnownLeaves, GivenLeaves,
      GivenTargets, ChildRoot;
    KnownLayer(inp, t);
    forall s | s in inp.children && s.parent == t
      ensures inp.children[s] in inp.plans && inp.children[s] in trace.rawRoots && 0 <= inp.children[s].layer < t.layer
      ensures trace.rawRoots[inp.children[s]] == RawRootOf(inp, inp.children[s])
    {
      KnownLayer(inp, inp.children[s]);
      assert TreeEvaluated(inp, inp.children[s], trace.rawRoots[inp.children[s]],
                           trace.committedRoots[inp.children[s]]);
    }
    GivenAre(inp, t, trace.rawRoots);
  }

  lemma GivenAre(inp: Inputs, t: TreeRef, rawRoots: map<TreeRef, Digest>)
    requires ChildrenReady(inp, t, rawRoots)
    requires forall s :: s in inp.children && s.parent == t ==>
      0 <= inp.children[s].layer < t.layer && rawRoots[inp.children[s]] == RawRootOf(inp, inp.children[s])
    ensures GivenLeaves(inp, t, rawRoots) == KnownLeaves(inp, t)
  {
    hide RawRootOf, CommittedRoot, GivenLeaves, KnownLeaves, GivenTargets;
    forall i | i in GivenTargets(inp, t) ensures GivenLeaves(inp, t, rawRoots)[i] == KnownLeaves(inp, t)[i] {}
  }

  lemma TargetsChecked(inp: Inputs, t: TreeRef, known: map<int, Digest>)
    requires Static(inp) && t in inp.plans && known.Keys == GivenTargets(inp, t)
    ensures TargetsGiven(inp, t) <==>
      |known| == |inp.plans[t].targets|
      && forall i :: 0 <= i < |inp.plans[t].targets| ==> inp.plans[t].targets[i] in known
  {
    hide NodesPlanned, LinksValid, AllLinked, GivenTargets, NeededSet;
    var plan := inp.plans[t];
    assert ValidShape(plan);
    assert |known| == |known.Keys| && |TargetSet(plan)| == |plan.targets|;
    if forall i :: 0 <= i < |plan.targets| ==> plan.targets[i] in known {
      assert TargetSet(plan) <= known.Keys;
      if |known.Keys| == |TargetSet(plan)| { SubsetOfSameSize(TargetSet(plan), known.Keys); }
    }
  }

  /** Given its targets, a tree can be recomputed: the planned nodes are the needed ones. */
  lemma GivenFoldable(inp: Inputs, t: TreeRef, known: map<int, Digest>)
    requires Static(inp) && t in inp.plans && TargetsGiven(inp, t) && known.Keys == GivenTargets(inp, t)
    ensures Foldable(inp.plans[t].leafCount, known, NodesOf(inp.nodes, t))
    ensures ValidTargets(inp.plans[t].leafCount, known.Keys)
  {
    hide LinksValid, AllLinked, GivenTargets, Needed, ValidShape, NodesPlanned, TargetSet;
    RequiredIsNeeded(inp.plans[t]);
    forall p ensures p in NodesOf(inp.nodes, t) <==> p in inp.plans[t].required { PlannedNode(inp, t, p); }
    assert NodesOf(inp.nodes, t).Keys == NeededSet(inp.plans[t].leafCount, known.Keys);
  }

  lemma RequiredIsNeeded(plan: TreePlan)
    requires ValidShape(plan)
    ensures ValidTargets(plan.leafCount, TargetSet(plan))
    ensures forall p :: p in plan.required <==> p in NeededSet(plan.leafCount, TargetSet(plan))
  {
    hide Needed;
  }

  lemma PlannedNode(inp: Inputs, t: TreeRef, p: Position)
    requires NodesPlanned(inp.plans, inp.nodes) && t in inp.plans
    ensures NodeRef(t, p) in inp.nodes <==> p in inp.plans[t].required
  {
    if p in inp.plans[t].required {
      var i :| 0 <= i < |inp.plans[t].required| && inp.plans[t].required[i] == p;
    }
    assert NodeRef(t, p) in inp.nodes ==> IsPlanned(inp.plans, NodeRef(t, p));
  }

  lemma TreeRecorded(inp: Inputs, done: set<TreeRef>, t: TreeRef, trace: ProofTrace, root: Digest,
                     out: map<Position, Digest>)
    requires Evaluated(inp, done, trace) && t !in done && t in inp.plans
    requires ValidTargets(inp.plans[t].leafCount, KnownLeaves(inp, t).Keys)
    requires root == FoldRoot(inp.plans[t].leafCount, KnownLeaves(inp, t), NodesOf(inp.nodes, t))
    requires SameNodes(out, FullTrace(inp.plans[t].leafCount, KnownLeaves(inp, t), NodesOf(inp.nodes, t)))
    ensures Evaluated(inp, done + {t}, ProofTrace(0, trace.rawRoots[t := root],
      trace.committedRoots[t := CommittedRoot(t, inp.plans[t].leafCount, root)], trace.nodes + Tagged(t, out)))
  {
    hide CommittedRoot, FoldRoot, FullTrace, KnownLeaves, NodesOf, RawRootOf, TreeTrace, Tagged;
    TreeIs(inp, t);
  }

  lemma TreeIs(inp: Inputs, t: TreeRef)
    requires t in inp.plans && ValidTargets(inp.plans[t].leafCount, KnownLeaves(inp, t).Keys)
    ensures RawRootOf(inp, t) == FoldRoot(inp.plans[t].leafCount, KnownLeaves(inp, t), NodesOf(inp.nodes, t))
    ensures TreeTrace(inp, t) == FullTrace(inp.plans[t].leafCount, KnownLeaves(inp, t), NodesOf(inp.nodes, t))
  {
    hide FoldRoot, FullTrace, KnownLeaves, NodesOf;
  }

  /** Checks and evaluates a proof, as evaluateHMFProof does when it records. */
  method EvaluateHMFProof(proof: HMFProof, addresses: seq<PhysicalAddress>) returns (r: Result<ProofTrace>)
    ensures r.Ok? <==> Acceptable(proof, addresses)
    ensures r.Ok? ==> IsTraceOf(InputsOf(proof), r.value)
  {
    hide ToMap, Distinct, PlansValid, NodesPlanned, LinksValid, AllLinked, TargetsGiven, IsTraceOf, Normalized,
      TreesOf, AddressesOf, LeafHashesOf, RefsOf, NodeHashesOf, SlotsOf, ChildrenOf;
    var leaves :- ValidateProofLeaves(proof.plan.addresses, addresses, proof.leaves);
    var plans :- CollectPlans(proof.plan.trees);
    var nodes :- CollectNodes(plans, proof.nodes);
    var children :- CollectLinks(plans, proof.plan.parentLinks);
    r := Evaluate(Inputs(plans, nodes, leaves, children));
  }

  method VerifyHMFProof(proof: HMFProof, addresses: seq<PhysicalAddress>) returns (r: Result<Digest>)
    ensures r == VerifiedRoot(proof, addresses)
  {
    hide Acceptable, ToMap;
    var trace :- EvaluateHMFProof(proof, addresses);
    return Ok(trace.globalRoot);
  }

  method VerifyHMFProofAgainstRoot(proof: HMFProof, addresses: seq<PhysicalAddress>,
                                   trustedRoot: Digest) returns (r: Result<Digest>)
    ensures r == if VerifiedRoot(proof, addresses) == Ok(trustedRoot) then Ok(trustedRoot) else Err
  {
    var calculated :- VerifyHMFProof(proof, addresses);
    if calculated != trustedRoot { return Err; }
    return Ok(calculated);
  }

  /** The global root an acceptable proof evaluates to. */
  function VerifiedRoot(proof: HMFProof, addresses: seq<PhysicalAddress>): Result<Digest> {
    if Acceptable(proof, addresses) then Ok(GlobalRootOf(InputsOf(proof))) else Err
  }
}
