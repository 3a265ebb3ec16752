/** Reference proofs (internal/hpp/proof.go): built in full, or from a supplied proof by
    replacing its leaves with the stored ones. */
module ReferenceProofs {
  import opened Hashing
  import opened Merkle
  import opened Sorting
  import opened ProofTypes
  import opened TreePlanning
  import opened Forests
  import opened ForestTrees
  import opened ProofInputs
  import opened Planner
  import opened Requests
  import opened NodeRows
  import opened ProofBuilding
  import opened Verifier
  import opened ProofSoundness
  import opened ProofCompleteness
  import opened ServedProofs
  import opened StoredForest

  // ---- A sound proof is determined by its addresses ----

  /** No shard holds two segments with the same identifier. */
  ghost predicate DistinctSegments(f: Forest) {
    forall key :: key in f.segments ==> DistinctIDs(f.segments[key])
  }

  predicate DistinctIDs(segments: seq<SealedSegment>) {
    forall i, j :: 0 <= i < j < |segments| ==> segments[i].segmentID != segments[j].segmentID
  }

  /** Every requested leaf belongs to a planned segment. */
  ghost predicate AllPlanned(inp: Inputs) {
    forall a :: a in inp.leaves ==> SegmentOf(a) in inp.plans
  }

  ghost predicate Authentic(f: Forest, contents: Contents, inp: Inputs)
    requires Stored(f, contents)
  {
    ValidInputs(inp) && Sound(f, contents, inp) && AllPlanned(inp)
  }

  /** Two sound proofs of the same addresses are the same, node by node. */
  lemma SoundDetermines(f: Forest, contents: Contents, a: Inputs, b: Inputs)
    requires Stored(f, contents) && DistinctSegments(f) && Authentic(f, contents, a) && Authentic(f, contents, b)
    requires a.leaves.Keys == b.leaves.Keys
    ensures a == b
  {
    hide WellFormed, Backed, DistinctSegments, Authentic;
    forall t ensures t in a.plans <==> t in b.plans {
      if t in a.plans { PlanShared(f, contents, a, b, t); }
      if t in b.plans { PlanShared(f, contents, b, a, t); }
    }
    forall s | s in a.children || s in b.children
      ensures s in a.children && s in b.children && a.children[s] == b.children[s] {
      if s in a.children { LinkShared(f, contents, a, b, s); } else { LinkShared(f, contents, b, a, s); }
    }
    assert a.children == b.children;
    forall l | l in a.leaves ensures a.leaves[l] == b.leaves[l] { LeafShared(f, contents, a, b, l); }
    assert a.leaves == b.leaves;
    forall t | t in a.plans ensures a.plans[t] == b.plans[t] { PlanDetermined(f, contents, a, b, t); }
    assert a.plans == b.plans;
    NodesShared(f, contents, a, b);
  }

  /** The parent of a planned tree is fixed by its name. */
  lemma ParentOfLink(inp: Inputs, s: Slot)
    requires ValidInputs(inp) && s in inp.children
    ensures s.parent == ParentTree(inp.children[s]) && s.parent in inp.plans && inp.children[s] in inp.plans
    ensures inp.children[s] != GLOBAL_TREE && inp.children[s].layer == s.parent.layer - 1
  {
    hide PlansValid, NodesPlanned, AllLinked, TargetsGiven;
    LinkFound(inp, s);
    PlansCanonical(inp, s.parent);
  }

  lemma {:induction false} PlanShared(f: Forest, contents: Contents, a: Inputs, b: Inputs, t: TreeRef)
    requires Stored(f, contents) && Authentic(f, contents, a) && Authentic(f, contents, b)
    requires a.leaves.Keys == b.leaves.Keys && t in a.plans
    ensures t in b.plans
    decreases t.layer
  {
    hide WellFormed, Backed, Sound, PlansValid, NodesPlanned, LinksValid, AllLinked;
    KnownLayer(a, t);
    PlanHashed(a, t);
    assert TargetsGiven(a, t);
    var i :| i in GivenTargets(a, t);
    if t.layer == LAYER_SEGMENT {
      var l :| l in a.leaves && SegmentOf(l) == t && l.leafID == i;
      assert l in b.leaves;
    } else {
      var s :| s in a.children && s.parent == t && s.index == i;
      ParentOfLink(a, s);
      PlanShared(f, contents, a, b, a.children[s]);
      var s' := SlotOf(b, a.children[s]);
      ParentOfLink(b, s');
    }
  }

  lemma LinkShared(f: Forest, contents: Contents, a: Inputs, b: Inputs, s: Slot)
    requires Stored(f, contents) && DistinctSegments(f) && Authentic(f, contents, a) && Authentic(f, contents, b)
    requires a.leaves.Keys == b.leaves.Keys && s in a.children
    ensures s in b.children && b.children[s] == a.children[s]
  {
    hide WellFormed, Backed, DistinctSegments, Static, TargetsGiven, TreeSound, NodesSound, ChildAt;
    var c := a.children[s];
    ParentOfLink(a, s);
    PlanShared(f, contents, a, b, c);
    var s' := SlotOf(b, c);
    ParentOfLink(b, s');
    assert LinkSound(f, a, s) && LinkSound(f, b, s');
    GivenWithin(f, contents, a, s);
    GivenWithin(f, contents, b, s');
    ChildrenDiffer(f, contents, s.parent, s.index, s'.index);
    assert s == Slot(s.parent, s.index) && s' == Slot(s'.parent, s'.index);
  }

  lemma GivenWithin(f: Forest, contents: Contents, inp: Inputs, s: Slot)
    requires Stored(f, contents) && ValidInputs(inp) && Sound(f, contents, inp) && s in inp.children
    ensures HasTree(f, s.parent) && 0 <= s.index < |LeavesOf(f, contents, s.parent)|
  {
    hide WellFormed, Backed, Static, TargetsGiven, LinkSound, LeavesOf, HasTree, KnownLeaves, RawRootOf, RawRoot;
    GivenLeaf(inp, s);
    ParentOfLink(inp, s);
    assert TreeSound(f, contents, inp, s.parent) && NodesSound(f, contents, inp, s.parent);
  }

  /** Different positions of a tree hold different children. */
  lemma ChildrenDiffer(f: Forest, contents: Contents, t: TreeRef, i: int, j: int)
    requires Stored(f, contents) && DistinctSegments(f) && HasTree(f, t) && t.layer != LAYER_SEGMENT
    requires 0 <= i < |LeavesOf(f, contents, t)| && 0 <= j < |LeavesOf(f, contents, t)|
    requires ChildAt(f, t, i) == ChildAt(f, t, j)
    ensures i == j
  {
    hide Backed;
    if t.layer == LAYER_SHARD {
      assert DistinctIDs(f.segments[KeyOf(t)]);
    }
  }

  lemma LeafShared(f: Forest, contents: Contents, a: Inputs, b: Inputs, l: PhysicalAddress)
    requires Stored(f, contents) && Authentic(f, contents, a) && Authentic(f, contents, b) && l in a.leaves
    requires l in b.leaves
    ensures a.leaves[l] == b.leaves[l]
  {
    hide WellFormed, Backed, Sound, ValidInputs, LeavesOf, HasTree;
    CoveredLeafIsStored(f, contents, a, l);
    CoveredLeafIsStored(f, contents, b, l);
  }

  lemma PlanDetermined(f: Forest, contents: Contents, a: Inputs, b: Inputs, t: TreeRef)
    requires Stored(f, contents) && Authentic(f, contents, a) && Authentic(f, contents, b) && t in a.plans
    requires t in b.plans
    requires a.leaves.Keys == b.leaves.Keys && a.children == b.children
    ensures a.plans[t] == b.plans[t]
  {
    hide WellFormed, Backed, NodesSound, LinkSound, NodesPlanned, LinksValid, AllLinked, LeavesOf, HasTree,
      CanonicalPlan, ValidTargets, RawRootOf, RawRoot;
    assert TreeSound(f, contents, a, t) && TreeSound(f, contents, b, t);
    assert ValidShape(a.plans[t]) && ValidShape(b.plans[t]);
    assert TargetsGiven(a, t) && TargetsGiven(b, t);
    assert GivenTargets(a, t) == GivenTargets(b, t);
  }

  lemma NodesShared(f: Forest, contents: Contents, a: Inputs, b: Inputs)
    requires Stored(f, contents) && Authentic(f, contents, a) && Authentic(f, contents, b) && a.plans == b.plans
    ensures a.nodes == b.nodes
  {
    hide WellFormed, Backed, Sound, PlansValid, LinksValid, AllLinked, TargetsGiven, LeavesOf, HasTree;
    forall r ensures r in a.nodes <==> r in b.nodes {
      assert r == NodeRef(r.tree, r.position);
      if r in a.nodes { assert IsPlanned(a.plans, r); PlannedNode(b, r.tree, r.position); }
      if r in b.nodes { assert IsPlanned(b.plans, r); PlannedNode(a, r.tree, r.position); }
    }
    forall r | r in a.nodes ensures a.nodes[r] == b.nodes[r] {
      assert IsPlanned(a.plans, r);
      NodeShared(f, contents, a, b, r);
    }
  }

  lemma NodeShared(f: Forest, contents: Contents, a: Inputs, b: Inputs, r: NodeRef)
    requires Stored(f, contents) && Authentic(f, contents, a) && Authentic(f, contents, b)
    requires r in a.nodes && r in b.nodes && r.tree in a.plans && r.tree in b.plans
    ensures a.nodes[r] == b.nodes[r]
  {
    hide WellFormed, Backed, ValidInputs, LinkSound, TreeSound, LeavesOf, HasTree, KnownLeaves, InTree, NodeAt;
    assert r == NodeRef(r.tree, r.position);
    assert NodesSound(f, contents, a, r.tree) && NodesSound(f, contents, b, r.tree);
    assert r.position in NodesOf(a.nodes, r.tree) && r.position in NodesOf(b.nodes, r.tree);
  }

  // ---- Building and rebuilding ----

  method BuildAndVerify(storage: Storage, rows: Rows, addresses: seq<PhysicalAddress>,
                        trustedRoot: Digest) returns (r: Result<HMFProof>)
    requires RowsFor(rows, storage.nodes)
    ensures r.Ok? <==> Verifiable(storage, addresses, trustedRoot)
    ensures r.Ok? ==> r.value == ProofOf(storage, Normalized(addresses).value)
  {
    hide Plannable, AllStored, Normalized, ProofOf, VerifiedRoot, RowsFor;
    var proof :- BuildProof(storage, rows, addresses);
    var root :- VerifyHMFProof(proof, addresses);
    if root != trustedRoot { return Err; }
    return Ok(proof);
  }

  /** The stored proof of the addresses has the trusted root. */
  ghost predicate Verifiable(storage: Storage, addresses: seq<PhysicalAddress>, trustedRoot: Digest) {
    && Normalized(addresses).Ok? && Plannable(Normalized(addresses).value, storage.meta)
    && AllStored(storage, Normalized(addresses).value)
    && VerifiedRoot(ProofOf(storage, Normalized(addresses).value), addresses) == Ok(trustedRoot)
  }

  /** The target leaves of the supplied Segment plans. */
  function SegmentTargets(trees: seq<TreePlan>): set<NodeRef> {
    set i, k | 0 <= i < |trees| && trees[i].tree.layer == LAYER_SEGMENT && 0 <= k < |trees[i].targets| ::
      NodeRef(trees[i].tree, Position(0, trees[i].targets[k]))
  }

  /** The supplied proof with the stored leaves. */
  function Rebuilt(storage: Storage, proof: HMFProof): HMFProof
    requires forall a :: a in proof.plan.addresses ==> IsStored(storage, LeafRef(a))
  {
    proof.(leaves := StoredLeaves(storage, proof.plan.addresses))
  }

  /** The supplied plans target exactly the planned addresses, all stored, and with the stored
      leaves the supplied nodes reproduce the trusted root. */
  ghost predicate Rebuildable(storage: Storage, proof: HMFProof, addresses: seq<PhysicalAddress>, trustedRoot: Digest) {
    && SegmentTargets(proof.plan.trees) == LeafRefs(proof.plan.addresses)
    && (forall a :: a in proof.plan.addresses ==> IsStored(storage, LeafRef(a)))
    && VerifiedRoot(Rebuilt(storage, proof), addresses) == Ok(trustedRoot)
  }

  /** Segment plans with their targets and no authentication nodes. */
  function LeafPlans(trees: seq<TreePlan>): seq<TreePlan> {
    if trees == [] then [] else
      var last := trees[|trees| - 1];
      LeafPlans(trees[..|trees| - 1])
      + if last.tree.layer == LAYER_SEGMENT then [TreePlan(last.tree, last.leafCount, last.targets, [])] else []
  }

  method ReferenceFromProof(storage: Storage, rows: Rows, proof: HMFProof, addresses: seq<PhysicalAddress>,
                            trustedRoot: Digest)
    returns (r: Result<(HMFProof, ProofTrace)>)
    requires RowsFor(rows, storage.nodes)
    ensures r.Ok? <==> Rebuildable(storage, proof, addresses, trustedRoot)
    ensures r.Ok? ==> r.value.0 == Rebuilt(storage, proof) && IsTraceOf(InputsOf(r.value.0), r.value.1)
  {
    hide Asks, Wanted, SegmentPlans, UpperPlans, AskedRefs, LeafRef, LeafRefs, SegmentTargets, IsStored, Splittable,
      Others, ReadSet, Acceptable, IsTraceOf, InputsOf, LeafListed, AddressesOf, RowsFor, AllKeyed;
    var segments: seq<TreePlan> := [];
    for i := 0 to |proof.plan.trees|
      invariant segments == LeafPlans(proof.plan.trees[..i])
    {
      var tree := proof.plan.trees[i];
      assert proof.plan.trees[..i + 1][..i] == proof.plan.trees[..i];
      if tree.tree.layer == LAYER_SEGMENT {
        segments := segments + [TreePlan(tree.tree, tree.leafCount, tree.targets, [])];
      }
    }
    assert proof.plan.trees[..|proof.plan.trees|] == proof.plan.trees;
    var requests, _ := BuildRequests(segments);
    LeafPlansAsk(proof.plan.trees, requests);
    AskedKeyed(requests, Wanted(SegmentPlans(LeafPlans(proof.plan.trees))));
    var nodes := FetchProofNodes(rows, requests, storage);
    if nodes.Err? {
      NotRebuildable(storage, proof, addresses, trustedRoot);
      return Err;
    }
    ReadSplittable(storage, SegmentTargets(proof.plan.trees), proof.plan.addresses);
    var split :- SplitTargetLeaves(proof.plan.addresses, nodes.value);
    if split.1 != [] { return Err; }
    RebuiltLeaves(storage, proof, nodes.value, split.0);
    var reference := HMFProof(proof.plan, split.0, proof.nodes);
    var trace :- EvaluateHMFProof(reference, addresses);
    TraceRoot(reference, addresses, trace);
    if trace.globalRoot != trustedRoot { return Err; }
    return Ok((reference, trace));
  }

  lemma LeafPlansAsk(trees: seq<TreePlan>, requests: seq<NodeRequest>)
    requires Asks(requests, Wanted(SegmentPlans(LeafPlans(trees))))
    ensures AskedRefs(requests) == SegmentTargets(trees)
  {
    hide Asks, Wanted, SegmentPlans, LeafPlans, AskedRefs, SegmentTargets;
    AsksAll(requests, Wanted(SegmentPlans(LeafPlans(trees))));
    forall ref ensures ref in AskedRefs(requests) <==> ref in SegmentTargets(trees) { WantedLeaves(trees, ref); }
  }

  lemma {:induction false} WantedLeaves(trees: seq<TreePlan>, ref: NodeRef)
    ensures ref in Wanted(SegmentPlans(LeafPlans(trees))) <==> ref in SegmentTargets(trees)
    decreases |trees|
  {
    hide Wanted, SegmentPlans, SegmentTargets, WantedOf;
    if trees == [] {
      NoneWanted();
      NoTargets(ref);
    } else {
      var rest, last := trees[..|trees| - 1], trees[|trees| - 1];
      WantedLeaves(rest, ref);
      LastTargets(trees, ref);
      if last.tree.layer == LAYER_SEGMENT {
        LastLeaves(LeafPlans(rest), last, ref);
      } else {
        assert LeafPlans(rest) + [] == LeafPlans(rest);
      }
    }
  }

  lemma NoTargets(ref: NodeRef)
    ensures ref !in SegmentTargets([])
  {}

  lemma LastTargets(trees: seq<TreePlan>, ref: NodeRef)
    requires trees != []
    ensures var rest, last := trees[..|trees| - 1], trees[|trees| - 1];
      ref in SegmentTargets(trees)
      <==> ref in SegmentTargets(rest) || (last.tree.layer == LAYER_SEGMENT && ref in TargetRefs(last))
  {
    var rest, last := trees[..|trees| - 1], trees[|trees| - 1];
    if ref in SegmentTargets(rest) {
      var i, k :| 0 <= i < |rest| && rest[i].tree.layer == LAYER_SEGMENT && 0 <= k < |rest[i].targets|
                  && ref == NodeRef(rest[i].tree, Position(0, rest[i].targets[k]));
      assert trees[i] == rest[i];
    }
    if last.tree.layer == LAYER_SEGMENT && ref in TargetRefs(last) {
      var k :| 0 <= k < |last.targets| && TargetRefs(last)[k] == ref;
      assert ref == NodeRef(trees[|trees| - 1].tree, Position(0, trees[|trees| - 1].targets[k]));
    }
    if ref in SegmentTargets(trees) {
      var i, k :| 0 <= i < |trees| && trees[i].tree.layer == LAYER_SEGMENT && 0 <= k < |trees[i].targets|
                  && ref == NodeRef(trees[i].tree, Position(0, trees[i].targets[k]));
      if i < |rest| { assert rest[i] == trees[i]; } else { assert TargetRefs(last)[k] == ref; }
    }
  }

  lemma LastLeaves(plans: seq<TreePlan>, last: TreePlan, ref: NodeRef)
    requires last.tree.layer == LAYER_SEGMENT
    ensures var leaf := TreePlan(last.tree, last.leafCount, last.targets, []);
      ref in Wanted(SegmentPlans(plans + [leaf])) <==> ref in Wanted(SegmentPlans(plans)) || ref in TargetRefs(last)
  {
    hide Wanted, SegmentPlans;
    var leaf := TreePlan(last.tree, last.leafCount, last.targets, []);
    PlanSplit(plans + [leaf], |plans|);
    assert (plans + [leaf])[..|plans| + 1] == plans + [leaf] && (plans + [leaf])[..|plans|] == plans;
    assert RequiredRefs(leaf) == [];
    assert TargetRefs(leaf) == TargetRefs(last);
  }

  lemma NotRebuildable(storage: Storage, proof: HMFProof, addresses: seq<PhysicalAddress>, trustedRoot: Digest)
    requires Fetched(storage, SegmentTargets(proof.plan.trees)).Err?
    ensures !Rebuildable(storage, proof, addresses, trustedRoot)
  {
    hide LeafRef, IsStored, VerifiedRoot, SegmentTargets;
  }

  lemma ReadSplittable(storage: Storage, refs: set<NodeRef>, addresses: seq<PhysicalAddress>)
    requires forall ref :: ref in refs ==> IsStored(storage, ref)
    ensures var nodes := ReadSet(storage, refs);
      && (Splittable(addresses, nodes) <==> forall ref :: ref in LeafRefs(addresses) ==> ref in refs)
      && (Others(nodes, LeafRefs(addresses)) == [] <==> forall ref :: ref in refs ==> ref in LeafRefs(addresses))
  {
    hide IsStored, RefLess, NoneTwice, Others, Sorted, OtherRefs, LeafRef;
    var sorted, targets := SortRefs(refs), LeafRefs(addresses);
    var nodes := Read(storage, sorted);
    assert RefsOf(nodes) == sorted;
    SortedNoneTwice(nodes, targets);
    OthersRead(storage, sorted, targets);
    OtherRefsSorted(sorted, targets);
    assert Others(nodes, targets) == [] <==> OtherRefs(sorted, targets) == [];
    if OtherRefs(sorted, targets) != [] { assert OtherRefs(sorted, targets)[0] in OtherRefs(sorted, targets); }
  }

  lemma RebuiltLeaves(storage: Storage, proof: HMFProof, nodes: seq<ProofNode>, leaves: seq<RequestedLeaf>)
    requires Fetched(storage, SegmentTargets(proof.plan.trees)) == Ok(nodes)
    requires Splittable(proof.plan.addresses, nodes) && Others(nodes, LeafRefs(proof.plan.addresses)) == []
    requires AddressesOf(leaves) == proof.plan.addresses
      && forall i :: 0 <= i < |proof.plan.addresses| ==> LeafListed(nodes, leaves[i])
    ensures SegmentTargets(proof.plan.trees) == LeafRefs(proof.plan.addresses)
    ensures forall a :: a in proof.plan.addresses ==> IsStored(storage, LeafRef(a))
    ensures leaves == StoredLeaves(storage, proof.plan.addresses)
  {
    hide IsStored, LeafRef, SegmentTargets, ReadSet, Splittable, Others, AddressesOf, LeafRefs;
    var refs, addresses := SegmentTargets(proof.plan.trees), proof.plan.addresses;
    ReadSplittable(storage, refs, addresses);
    ReadSetHolds(storage, refs);
    assert refs == LeafRefs(addresses);
    forall a | a in addresses ensures IsStored(storage, LeafRef(a)) { LeafRefIn(addresses, a); }
    StoredLeavesAre(storage, addresses, nodes, leaves);
  }

  lemma TraceRoot(proof: HMFProof, addresses: seq<PhysicalAddress>, trace: ProofTrace)
    requires Acceptable(proof, addresses) && IsTraceOf(InputsOf(proof), trace)
    ensures VerifiedRoot(proof, addresses) == Ok(trace.globalRoot)
  {
    hide Evaluated, Static, TargetsGiven;
  }

  // ---- The fast reference is the full one ----

  /** The rebuilt reference supplies, node by node, what the one built in full supplies. */
  ghost predicate SameAsFull(storage: Storage, proof: HMFProof, addresses: seq<PhysicalAddress>) {
    && (forall a :: a in proof.plan.addresses ==> IsStored(storage, LeafRef(a)))
    && Normalized(addresses).Ok? && Plannable(Normalized(addresses).value, storage.meta)
    && AllStored(storage, Normalized(addresses).value)
    && InputsOf(Rebuilt(storage, proof)) == InputsOf(ProofOf(storage, Normalized(addresses).value))
  }

  /** A reference accepted against the forest's root equals, node by node, the one built in full,
      which is then accepted too; or the hash collides. */
  lemma FastRefinesFull(f: Forest, contents: Contents, storage: Storage, proof: HMFProof,
                        addresses: seq<PhysicalAddress>)
    requires Holds(f, contents, storage) && DistinctSegments(f)
    requires Rebuildable(storage, proof, addresses, ForestRoot(f))
    ensures
      || Collide(RunPreimages(InputsOf(Rebuilt(storage, proof))), ForestPreimages(f, contents))
      || (Verifiable(storage, addresses, ForestRoot(f)) && SameAsFull(storage, proof, addresses))
  {
    hide WellFormed, Backed, Faithful, Complete, DistinctSegments, Collide, RunPreimages, ForestPreimages, InputsOf,
      ForestRoot, GlobalRootOf, Sound, SegmentTargets, LeafRef, LeafRefs, IsStored, Normalized, Plannable, AllStored,
      ProofOf, ListedOnce, ValidInputs, AllSealed, Authentic, StoredLeaves;
    var rebuilt := Rebuilt(storage, proof);
    var inp := InputsOf(rebuilt);
    ProofsAreSound(f, contents, rebuilt, addresses);
    if Sound(f, contents, inp) {
      RebuiltCovers(storage, proof, addresses, ForestRoot(f));
      RebuiltSealed(f, contents, rebuilt, addresses);
      EndToEnd(f, contents, storage, addresses);
      BuiltAuthentic(f, contents, storage, addresses);
      RebuiltAuthentic(f, contents, inp);
      SameLeaves(rebuilt, ProofOf(storage, Normalized(addresses).value), addresses);
      SoundDetermines(f, contents, inp, InputsOf(ProofOf(storage, Normalized(addresses).value)));
    }
  }

  lemma RebuiltAuthentic(f: Forest, contents: Contents, inp: Inputs)
    requires Stored(f, contents) && ValidInputs(inp) && Sound(f, contents, inp) && AllPlanned(inp)
    ensures Authentic(f, contents, inp)
  {}

  lemma RebuiltCovers(storage: Storage, proof: HMFProof, addresses: seq<PhysicalAddress>, trustedRoot: Digest)
    requires Rebuildable(storage, proof, addresses, trustedRoot)
    ensures AllPlanned(InputsOf(Rebuilt(storage, proof))) && addresses != []
  {
    hide IsStored, GlobalRootOf, Static, TargetsGiven, ListedOnce, Normalized, Distinct;
    var inp := InputsOf(Rebuilt(storage, proof));
    forall a | a in inp.leaves ensures SegmentOf(a) in inp.plans {
      LeafPlanned(storage, proof, a);
    }
    SomeLeaf(inp, GLOBAL_TREE);
    LeavesRequestedAre(Rebuilt(storage, proof), addresses);
  }

  lemma LeafPlanned(storage: Storage, proof: HMFProof, a: PhysicalAddress)
    requires SegmentTargets(proof.plan.trees) == LeafRefs(proof.plan.addresses) && a in proof.plan.addresses
    ensures SegmentOf(a) in TreesOf(proof.plan.trees)
  {
    var trees := proof.plan.trees;
    LeafRefIn(proof.plan.addresses, a);
    var i, k :| 0 <= i < |trees| && trees[i].tree.layer == LAYER_SEGMENT && 0 <= k < |trees[i].targets|
                && LeafRef(a) == NodeRef(trees[i].tree, Position(0, trees[i].targets[k]));
    assert TreesOf(trees)[i] == SegmentOf(a);
  }

  /** An acceptable proof has a requested leaf below each of its trees. */
  lemma {:induction false} SomeLeaf(inp: Inputs, t: TreeRef)
    requires ValidInputs(inp) && t in inp.plans
    ensures exists a :: a in inp.leaves
    decreases t.layer
  {
    hide PlansValid, NodesPlanned, LinksValid, AllLinked;
    KnownLayer(inp, t);
    PlanHashed(inp, t);
    assert TargetsGiven(inp, t);
    var i :| i in GivenTargets(inp, t);
    if t.layer == LAYER_SEGMENT {
      var l :| l in inp.leaves && SegmentOf(l) == t && l.leafID == i;
    } else {
      var s :| s in inp.children && s.parent == t && s.index == i;
      LinkFound(inp, s);
      SomeLeaf(inp, inp.children[s]);
    }
  }

  /** The leaves of an acceptable proof are those of the requested addresses. */
  lemma LeavesRequestedAre(proof: HMFProof, addresses: seq<PhysicalAddress>)
    requires Acceptable(proof, addresses)
    ensures forall a :: a in InputsOf(proof).leaves <==> a in addresses
  {
    hide ValidInputs, Normalized, Distinct;
    var planned, listed := proof.plan.addresses, AddressesOf(proof.leaves);
    NormalElements(addresses);
    NormalizeTwice(addresses);
    NormalDistinct(planned);
    SameSize(planned, listed);
  }

  lemma SameSize<T(!new)>(s: seq<T>, t: seq<T>)
    requires Distinct(s) && Distinct(t) && |s| == |t| && forall x :: x in s ==> x in t
    ensures forall x :: x in t ==> x in s
  {
    var a, b := set x | x in s, set x | x in t;
    DistinctSize(s);
    DistinctSize(t);
    TreeFold.SubsetOfSameSize(a, b);
    forall x | x in t ensures x in s { assert x in b; }
  }

  lemma {:induction false} DistinctSize<T(!new)>(s: seq<T>)
    requires Distinct(s)
    ensures |(set x | x in s)| == |s|
    decreases |s|
  {
    if s != [] {
      var rest, last := s[..|s| - 1], s[|s| - 1];
      DistinctSize(rest);
      assert (set x | x in s) == (set x | x in rest) + {last};
    }
  }

  lemma RebuiltSealed(f: Forest, contents: Contents, proof: HMFProof, addresses: seq<PhysicalAddress>)
    requires Stored(f, contents) && Acceptable(proof, addresses) && Sound(f, contents, InputsOf(proof))
    requires AllPlanned(InputsOf(proof))
    ensures AllSealed(f, contents, addresses)
  {
    hide WellFormed, Backed, Sound, InputsOf, LeavesOf, HasTree, ValidInputs, LeavesRequested, ListedOnce;
    LeavesRequestedAre(proof, addresses);
    forall a | a in addresses ensures Sealed(f, contents, a) {
      CoveredLeafIsStored(f, contents, InputsOf(proof), a);
    }
  }

  lemma BuiltAuthentic(f: Forest, contents: Contents, storage: Storage, addresses: seq<PhysicalAddress>)
    requires Holds(f, contents, storage) && AllSealed(f, contents, addresses) && Normalized(addresses).Ok?
    requires var normal := Normalized(addresses).value;
      && Plannable(normal, storage.meta) && AllStored(storage, normal)
      && Acceptable(ProofOf(storage, normal), addresses)
    ensures Authentic(f, contents, InputsOf(ProofOf(storage, Normalized(addresses).value)))
  {
    hide WellFormed, Backed, Faithful, Complete, Plannable, AllStored, Sound, InputsOf, Normalized, ProofOf, Served,
      Truthful, Sealed, PlansValid, NodesPlanned, LinksValid, AllLinked, TargetsGiven;
    var normal := Normalized(addresses).value;
    var inp := InputsOf(ProofOf(storage, normal));
    NormalizeTwice(addresses);
    NormalElements(addresses);
    BuiltIsServed(storage, normal);
    ServedIsValid(storage, normal, inp);
    ServedIsTruthful(f, contents, storage, normal, inp);
    TruthfulIsSound(f, contents, inp);
    LeavesRequestedAre(ProofOf(storage, normal), addresses);
  }

  lemma SameLeaves(a: HMFProof, b: HMFProof, addresses: seq<PhysicalAddress>)
    requires Acceptable(a, addresses) && Acceptable(b, addresses)
    ensures InputsOf(a).leaves.Keys == InputsOf(b).leaves.Keys
  {
    hide Acceptable, InputsOf;
    LeavesRequestedAre(a, addresses);
    LeavesRequestedAre(b, addresses);
  }
}
