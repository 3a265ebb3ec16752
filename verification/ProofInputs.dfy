/** What a proof claims, as maps, and what it must satisfy to be accepted
    (internal/hpp/verifier.go:26-145). */
module ProofInputs {
  import opened Hashing
  import opened Merkle
  import opened Sorting
  import opened ProofTypes
  import opened TreePlanning
  import opened TreeFold
  import opened Forests

  datatype ProofPlan = ProofPlan(addresses: seq<PhysicalAddress>, trees: seq<TreePlan>, parentLinks: seq<ParentLink>)

  datatype HMFProof = HMFProof(plan: ProofPlan, leaves: seq<RequestedLeaf>, nodes: seq<ProofNode>)

  /** A leaf position of an upper tree that holds a child's committed root. */
  datatype Slot = Slot(parent: TreeRef, index: int)

  /** The contents of a proof, indexed. */
  datatype Inputs = Inputs(
    plans: map<TreeRef, TreePlan>,
    nodes: map<NodeRef, Digest>,
    leaves: map<PhysicalAddress, Digest>,
    children: map<Slot, TreeRef>)

  // ---- Addresses ----

  predicate ValidAddress(a: PhysicalAddress) {
    a.regionID != [] && a.shardID >= 0 && a.segmentID >= 0 && a.leafID >= 0
  }

  /** Distinct addresses in canonical order; an invalid one is an error. */
  function Normalized(addresses: seq<PhysicalAddress>): Result<seq<PhysicalAddress>> {
    if exists i :: 0 <= i < |addresses| && !ValidAddress(addresses[i]) then Err
    else Ok(SortAddresses(set a | a in addresses))
  }

  function SortAddresses(s: set<PhysicalAddress>): (r: seq<PhysicalAddress>)
    ensures Sorted(AddressLess, r) && SameElements(r, s) && |r| == |s|
  {
    AddressOrder();
    SortSet(AddressLess, s)
  }

  method NormalizeAddresses(addresses: seq<PhysicalAddress>) returns (r: Result<seq<PhysicalAddress>>)
    ensures r == Normalized(addresses)
    ensures r.Err? <==>
      exists a :: a in addresses && (a.regionID == [] || a.shardID < 0 || a.segmentID < 0 || a.leafID < 0)
    ensures r.Ok? ==> Sorted(AddressLess, r.value) && forall a :: a in r.value <==> a in addresses
  {
    var unique: set<PhysicalAddress> := {};
    for i := 0 to |addresses|
      invariant forall j :: 0 <= j < i ==> ValidAddress(addresses[j])
      invariant forall a :: a in unique <==> a in addresses[..i]
    {
      if !ValidAddress(addresses[i]) {
        assert addresses[i] in addresses;
        return Err;
      }
      unique := unique + {addresses[i]};
    }
    assert addresses[..|addresses|] == addresses;
    assert unique == set a | a in addresses;
    return Ok(SortAddresses(unique));
  }

  /** Normalizing what is normalized changes nothing. */
  lemma NormalizeTwice(addresses: seq<PhysicalAddress>)
    requires Normalized(addresses).Ok?
    ensures Normalized(Normalized(addresses).value) == Normalized(addresses)
  {
    var all := set a | a in addresses;
    var sorted := SortAddresses(all);
    forall i | 0 <= i < |sorted| ensures ValidAddress(sorted[i]) {
      assert sorted[i] in sorted;
      var k :| 0 <= k < |addresses| && addresses[k] == sorted[i];
    }
    assert (set a | a in sorted) == all;
  }

  // ---- What each tree is given ----

  function TargetSet(plan: TreePlan): set<int> {
    set i | i in plan.targets
  }

  /** The plan is the canonical one for its leaf count and targets. */
  predicate ValidShape(plan: TreePlan) {
    && ValidTargets(plan.leafCount, TargetSet(plan))
    && plan == CanonicalPlan(plan.tree, plan.leafCount, TargetSet(plan))
  }

  predicate ValidParentLink(child: TreeRef, parent: TreeRef) {
    && parent.layer == child.layer + 1
    && if child.layer == LAYER_SEGMENT then
         parent.regionID == child.regionID && parent.shardID == child.shardID && parent.segmentID == 0
       else if child.layer == LAYER_SHARD then
         parent.regionID == child.regionID && parent.shardID == 0 && parent.segmentID == 0
       else if child.layer == LAYER_REGION then parent == GLOBAL_TREE
       else false
  }

  function CommittedRoot(tree: TreeRef, leafCount: int, rawRoot: Digest): Digest {
    if tree.layer == LAYER_SEGMENT
      then CommitSegmentRoot(tree.regionID, tree.shardID, tree.segmentID, leafCount, rawRoot)
    else if tree.layer == LAYER_SHARD then CommitShardRoot(tree.regionID, tree.shardID, leafCount, rawRoot)
    else if tree.layer == LAYER_REGION then CommitRegionRoot(tree.regionID, leafCount, rawRoot)
    else if tree.layer == LAYER_GLOBAL then CommitGlobalRoot(leafCount, rawRoot)
    else 0
  }

  function NodesOf(nodes: map<NodeRef, Digest>, t: TreeRef): (m: map<Position, Digest>)
    ensures forall p :: p in m <==> NodeRef(t, p) in nodes
    ensures forall p :: p in m ==> m[p] == nodes[NodeRef(t, p)]
  {
    assert forall r :: r in nodes && r.tree == t ==> r == NodeRef(t, r.position);
    map r | r in nodes && r.tree == t :: r.position := nodes[r]
  }

  /** The leaf positions a tree is given: requested leaves of a Segment, children of an upper tree. */
  function GivenTargets(inp: Inputs, t: TreeRef): set<int> {
    if t.layer == LAYER_SEGMENT then set a | a in inp.leaves && SegmentOf(a) == t :: a.leafID
    else set s | s in inp.children && s.parent == t :: s.index
  }

  function LeafAddress(t: TreeRef, index: int): PhysicalAddress {
    PhysicalAddress(t.regionID, t.shardID, t.segmentID, index)
  }

  /** The leaf hashes a tree is given; those of an upper tree are committed roots of its children. */
  function KnownLeaves(inp: Inputs, t: TreeRef): (m: map<int, Digest>)
    ensures m.Keys == GivenTargets(inp, t)
    ensures t.layer == LAYER_SEGMENT ==> forall i :: i in m ==>
      LeafAddress(t, i) in inp.leaves && m[i] == inp.leaves[LeafAddress(t, i)]
    ensures t.layer != LAYER_SEGMENT ==> forall i :: i in m ==>
      Slot(t, i) in inp.children && m[i] == ChildRoot(inp, t, inp.children[Slot(t, i)])
    decreases t.layer, 0
  {
    assert forall s :: s in inp.children && s.parent == t ==> s == Slot(t, s.index);
    assert forall a :: a in inp.leaves && SegmentOf(a) == t ==> a == LeafAddress(t, a.leafID);
    if t.layer == LAYER_SEGMENT then
      map a | a in inp.leaves && SegmentOf(a) == t :: a.leafID := inp.leaves[a]
    else
      map s | s in inp.children && s.parent == t :: s.index := ChildRoot(inp, t, inp.children[s])
  }

  function ChildRoot(inp: Inputs, parent: TreeRef, child: TreeRef): Digest
    decreases parent.layer, -1
  {
    if 0 <= child.layer < parent.layer && child in inp.plans
    then CommittedRoot(child, inp.plans[child].leafCount, RawRootOf(inp, child)) else 0
  }

  /** The raw root recomputed for a tree. */
  function RawRootOf(inp: Inputs, t: TreeRef): Digest
    decreases t.layer, 1
  {
    var known := KnownLeaves(inp, t);
    if t in inp.plans && ValidTargets(inp.plans[t].leafCount, known.Keys)
    then FoldRoot(inp.plans[t].leafCount, known, NodesOf(inp.nodes, t)) else 0
  }

  /** Every supplied and recomputed node of a tree. */
  function TreeTrace(inp: Inputs, t: TreeRef): map<Position, Digest>
    requires t in inp.plans
  {
    FullTrace(if inp.plans[t].leafCount < 0 then 0 else inp.plans[t].leafCount, KnownLeaves(inp, t),
              NodesOf(inp.nodes, t))
  }

  // ---- What makes a proof acceptable ----

  predicate PlansValid(plans: map<TreeRef, TreePlan>) {
    forall t :: t in plans ==> plans[t].tree == t && ValidShape(plans[t])
  }

  predicate IsPlanned(plans: map<TreeRef, TreePlan>, r: NodeRef) {
    r.tree in plans && r.position in plans[r.tree].required
  }

  predicate OnlyPlanned(plans: map<TreeRef, TreePlan>, nodes: map<NodeRef, Digest>) {
    forall r :: r in nodes ==> IsPlanned(plans, r)
  }

  predicate AllPlanned(plans: map<TreeRef, TreePlan>, nodes: map<NodeRef, Digest>) {
    forall t, i :: t in plans && 0 <= i < |plans[t].required| ==> NodeRef(t, plans[t].required[i]) in nodes
  }

  /** The supplied nodes are exactly the planned ones. */
  predicate NodesPlanned(plans: map<TreeRef, TreePlan>, nodes: map<NodeRef, Digest>) {
    OnlyPlanned(plans, nodes) && AllPlanned(plans, nodes)
  }

  predicate LinksValid(plans: map<TreeRef, TreePlan>, children: map<Slot, TreeRef>) {
    forall s :: s in children ==> s.parent in plans && children[s] in plans && ValidParentLink(children[s], s.parent)
  }

  /** Every tree but the Global one hangs below another. */
  predicate AllLinked(plans: map<TreeRef, TreePlan>, children: map<Slot, TreeRef>) {
    forall t :: t in plans ==>
      if t.layer == LAYER_GLOBAL then t == GLOBAL_TREE else exists s :: s in children && children[s] == t
  }

  predicate Static(inp: Inputs) {
    && PlansValid(inp.plans) && NodesPlanned(inp.plans, inp.nodes)
    && LinksValid(inp.plans, inp.children) && AllLinked(inp.plans, inp.children)
  }

  /** A tree is given exactly its targets. */
  predicate TargetsGiven(inp: Inputs, t: TreeRef)
    requires t in inp.plans
  {
    GivenTargets(inp, t) == TargetSet(inp.plans[t])
  }

  predicate ValidInputs(inp: Inputs) {
    Static(inp) && (forall t :: t in inp.plans ==> TargetsGiven(inp, t)) && GLOBAL_TREE in inp.plans
  }

  /** The global root the proof evaluates to. */
  function GlobalRootOf(inp: Inputs): Digest
    requires GLOBAL_TREE in inp.plans
  {
    CommittedRoot(GLOBAL_TREE, inp.plans[GLOBAL_TREE].leafCount, RawRootOf(inp, GLOBAL_TREE))
  }

  // ---- From the lists of a proof to maps ----

  predicate Distinct<T(==)>(s: seq<T>) {
    forall i, j :: 0 <= i < j < |s| ==> s[i] != s[j]
  }

  function FirstIndex<T(==)>(s: seq<T>, x: T): (i: nat)
    requires x in s
    ensures i < |s| && s[i] == x
  {
    if s[0] == x then 0 else 1 + FirstIndex(s[1..], x)
  }

  function ToMap<K(==, !new), V>(keys: seq<K>, values: seq<V>): (m: map<K, V>)
    requires |keys| == |values|
    ensures forall k :: k in m <==> k in keys
    ensures Distinct(keys) ==> forall i :: 0 <= i < |keys| ==> m[keys[i]] == values[i]
  {
    map k | k in keys :: values[FirstIndex(keys, k)]
  }

  /** `m` holds the first n associations, no key twice. */
  ghost predicate Collected<K(!new), V>(keys: seq<K>, values: seq<V>, n: nat, m: map<K, V>)
    requires n <= |keys| == |values|
  {
    && (forall j :: 0 <= j < n ==> keys[j] in m && m[keys[j]] == values[j])
    && (forall k :: k in m ==> exists j :: 0 <= j < n && keys[j] == k)
    && (forall i, j :: 0 <= i < j < n ==> keys[i] != keys[j])
  }

  lemma CollectedAll<K(!new), V>(keys: seq<K>, values: seq<V>, m: map<K, V>)
    requires |keys| == |values| && Collected(keys, values, |keys|, m)
    ensures Distinct(keys) && m == ToMap(keys, values)
  {
    forall k | k in m ensures k in keys {}
    forall k | k in keys ensures k in m && m[k] == ToMap(keys, values)[k] {
      var j :| 0 <= j < |keys| && keys[j] == k;
    }
  }

  function TreesOf(trees: seq<TreePlan>): seq<TreeRef> {
    seq(|trees|, i requires 0 <= i < |trees| => trees[i].tree)
  }

  function AddressesOf(leaves: seq<RequestedLeaf>): seq<PhysicalAddress> {
    seq(|leaves|, i requires 0 <= i < |leaves| => leaves[i].address)
  }

  function LeafHashesOf(leaves: seq<RequestedLeaf>): seq<Digest> {
    seq(|leaves|, i requires 0 <= i < |leaves| => leaves[i].hash)
  }

  function RefsOf(nodes: seq<ProofNode>): seq<NodeRef> {
    seq(|nodes|, i requires 0 <= i < |nodes| => nodes[i].ref)
  }

  function NodeHashesOf(nodes: seq<ProofNode>): seq<Digest> {
    seq(|nodes|, i requires 0 <= i < |nodes| => nodes[i].hash)
  }

  function SlotsOf(links: seq<ParentLink>): seq<Slot> {
    seq(|links|, i requires 0 <= i < |links| => Slot(links[i].parent, links[i].parentLeafIndex))
  }

  function ChildrenOf(links: seq<ParentLink>): seq<TreeRef> {
    seq(|links|, i requires 0 <= i < |links| => links[i].child)
  }

  function InputsOf(proof: HMFProof): Inputs {
    Inputs(ToMap(TreesOf(proof.plan.trees), proof.plan.trees),
           ToMap(RefsOf(proof.nodes), NodeHashesOf(proof.nodes)),
           ToMap(AddressesOf(proof.leaves), LeafHashesOf(proof.leaves)),
           ToMap(SlotsOf(proof.plan.parentLinks), ChildrenOf(proof.plan.parentLinks)))
  }

  /** Nothing is listed twice. */
  predicate ListedOnce(proof: HMFProof) {
    && Distinct(TreesOf(proof.plan.trees)) && Distinct(RefsOf(proof.nodes)) && Distinct(AddressesOf(proof.leaves))
    && Distinct(SlotsOf(proof.plan.parentLinks)) && Distinct(ChildrenOf(proof.plan.parentLinks))
  }

  /** The leaves are those of the requested addresses. */
  predicate LeavesRequested(proof: HMFProof, addresses: seq<PhysicalAddress>) {
    && Normalized(addresses) == Ok(proof.plan.addresses)
    && |proof.leaves| == |proof.plan.addresses|
    && (forall a :: a in proof.plan.addresses ==> a in AddressesOf(proof.leaves))
  }

  /** The proofs the verifier accepts. */
  predicate Acceptable(proof: HMFProof, addresses: seq<PhysicalAddress>) {
    ListedOnce(proof) && LeavesRequested(proof, addresses) && ValidInputs(InputsOf(proof))
  }
}
