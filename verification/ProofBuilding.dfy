/** Building a proof from stored nodes (internal/hpp/proof.go). */
module ProofBuilding {
  import opened Hashing
  import opened Merkle
  import opened NodeStore
  import opened Sorting
  import opened ProofTypes
  import opened TreePlanning
  import opened ProofInputs
  import opened Planner
  import opened Requests
  import opened NodeRows

  /** What the service reads: tree metadata and the nodes persisted for each tree. */
  datatype Storage = Storage(meta: HierarchyMetadata, nodes: map<TreeRef, Store>)

  predicate IsStored(storage: Storage, ref: NodeRef) {
    ref.tree in storage.nodes && ref.position in storage.nodes[ref.tree]
  }

  function StoredHash(storage: Storage, ref: NodeRef): Digest
    requires IsStored(storage, ref)
  {
    storage.nodes[ref.tree][ref.position]
  }

  predicate RefLess(a: NodeRef, b: NodeRef) {
    if a.tree != b.tree then TreeRefLess(a.tree, b.tree) else PositionLess(a.position, b.position)
  }

  lemma RefOrder()
    ensures StrictOrder(RefLess)
  {
    TreeRefOrder();
    PositionOrder();
  }

  function SortRefs(s: set<NodeRef>): (r: seq<NodeRef>)
    ensures Sorted(RefLess, r) && SameElements(r, s) && |r| == |s|
  {
    RefOrder();
    SortSet(RefLess, s)
  }

  /** The stored nodes of a list of references. */
  function Read(storage: Storage, refs: seq<NodeRef>): (r: seq<ProofNode>)
    requires forall ref :: ref in refs ==> IsStored(storage, ref)
    ensures |r| == |refs| && forall i :: 0 <= i < |r| ==> r[i] == ProofNode(refs[i], StoredHash(storage, refs[i]))
  {
    seq(|refs|, i requires 0 <= i < |refs| => ProofNode(refs[i], StoredHash(storage, refs[i])))
  }

  /** A set of stored nodes, in order. */
  function ReadSet(storage: Storage, refs: set<NodeRef>): (r: seq<ProofNode>)
    requires forall ref :: ref in refs ==> IsStored(storage, ref)
  {
    Read(storage, SortRefs(refs))
  }

  /** What the store answers: every requested node once, in order, unless one is missing. */
  function Fetched(storage: Storage, refs: set<NodeRef>): Result<seq<ProofNode>> {
    if exists ref :: ref in refs && !IsStored(storage, ref) then Err else Ok(ReadSet(storage, refs))
  }

  function LeafRef(a: PhysicalAddress): NodeRef {
    NodeRef(SegmentOf(a), Position(0, a.leafID))
  }

  function LeafRefs(addresses: seq<PhysicalAddress>): set<NodeRef> {
    set a | a in addresses :: LeafRef(a)
  }

  /** The nodes that are not requested leaves, in order. */
  function Others(nodes: seq<ProofNode>, targets: set<NodeRef>): seq<ProofNode> {
    if nodes == [] then [] else
      var last := nodes[|nodes| - 1];
      Others(nodes[..|nodes| - 1], targets) + if last.ref in targets then [] else [last]
  }

  /** Every requested leaf is among the nodes, and none twice. */
  predicate Splittable(addresses: seq<PhysicalAddress>, nodes: seq<ProofNode>) {
    (forall a :: a in addresses ==> LeafRef(a) in RefsOf(nodes)) && NoneTwice(nodes, LeafRefs(addresses))
  }

  predicate NoneTwice(nodes: seq<ProofNode>, targets: set<NodeRef>) {
    forall i, j :: 0 <= i < j < |nodes| && nodes[i].ref in targets ==> nodes[i].ref != nodes[j].ref
  }

  ghost predicate LeafListed(nodes: seq<ProofNode>, leaf: RequestedLeaf) {
    ProofNode(LeafRef(leaf.address), leaf.hash) in nodes
  }

  /** `hashes` holds the targets among the nodes. */
  ghost predicate Separated(nodes: seq<ProofNode>, targets: set<NodeRef>, hashes: map<NodeRef, Digest>) {
    && NoneTwice(nodes, targets)
    && (forall j :: 0 <= j < |nodes| && nodes[j].ref in targets ==> nodes[j].ref in hashes)
    && (forall ref :: ref in hashes ==> ProofNode(ref, hashes[ref]) in nodes)
  }

  /** Separates the requested leaves from the authentication nodes. */
  method SplitTargetLeaves(addresses: seq<PhysicalAddress>, nodes: seq<ProofNode>)
    returns (r: Result<(seq<RequestedLeaf>, seq<ProofNode>)>)
    ensures r.Ok? <==> Splittable(addresses, nodes)
    ensures r.Ok? ==> AddressesOf(r.value.0) == addresses && r.value.1 == Others(nodes, LeafRefs(addresses))
    ensures r.Ok? ==> forall i :: 0 <= i < |addresses| ==> LeafListed(nodes, r.value.0[i])
  {
    hide Separated, NoneTwice, Others, LeafListed, LeafRef;
    var hashes: map<NodeRef, Digest> := map[];
    var rest: seq<ProofNode> := [];
    var targets := LeafRefs(addresses);
    NoneSeparated(targets);
    for i := 0 to |nodes|
      invariant Separated(nodes[..i], targets, hashes) && rest == Others(nodes[..i], targets)
    {
      var node := nodes[i];
      assert nodes[..i + 1] == nodes[..i] + [node];
      NextSeparated(nodes[..i], targets, hashes, node);
      if node.ref in targets {
        if node.ref in hashes {
          SeparatedTwice(nodes, i, targets, hashes);
          return Err;
        }
        hashes := hashes[node.ref := node.hash];
      } else {
        rest := rest + [node];
      }
    }
    assert nodes[..|nodes|] == nodes;
    HashesAre(addresses, nodes, hashes);
    if exists a :: a in addresses && LeafRef(a) !in hashes { return Err; }
    var leaves := seq(|addresses|,
                      i requires 0 <= i < |addresses| => RequestedLeaf(addresses[i], hashes[LeafRef(addresses[i])]));
    assert AddressesOf(leaves) == addresses;
    return Ok((leaves, rest));
  }

  lemma NoneSeparated(targets: set<NodeRef>)
    ensures Separated([], targets, map[]) && Others([], targets) == []
    ensures forall nodes: seq<ProofNode> {:trigger nodes[..0]} :: nodes[..0] == []
  {}

  lemma NextSeparated(nodes: seq<ProofNode>, targets: set<NodeRef>, hashes: map<NodeRef, Digest>, node: ProofNode)
    requires Separated(nodes, targets, hashes)
    ensures node.ref in targets && node.ref !in hashes ==>
      Separated(nodes + [node], targets, hashes[node.ref := node.hash])
    ensures node.ref !in targets ==> Separated(nodes + [node], targets, hashes)
    ensures Others(nodes + [node], targets) == Others(nodes, targets) + if node.ref in targets then [] else [node]
  {
    assert (nodes + [node])[..|nodes|] == nodes;
  }

  lemma SeparatedTwice(nodes: seq<ProofNode>, i: nat, targets: set<NodeRef>, hashes: map<NodeRef, Digest>)
    requires i < |nodes| && Separated(nodes[..i], targets, hashes) && nodes[i].ref in targets && nodes[i].ref in hashes
    ensures !NoneTwice(nodes, targets)
  {
    var node := ProofNode(nodes[i].ref, hashes[nodes[i].ref]);
    var j :| 0 <= j < i && nodes[..i][j] == node;
    assert nodes[j].ref == nodes[i].ref;
  }

  lemma HashesAre(addresses: seq<PhysicalAddress>, nodes: seq<ProofNode>, hashes: map<NodeRef, Digest>)
    requires Separated(nodes, LeafRefs(addresses), hashes)
    ensures NoneTwice(nodes, LeafRefs(addresses))
    ensures forall a :: a in addresses ==> (LeafRef(a) in hashes <==> LeafRef(a) in RefsOf(nodes))
    ensures forall a :: a in addresses && LeafRef(a) in hashes ==>
      LeafListed(nodes, RequestedLeaf(a, hashes[LeafRef(a)]))
  {
    hide NoneTwice, LeafRef;
    forall a | a in addresses ensures LeafRef(a) in hashes <==> LeafRef(a) in RefsOf(nodes) {
      if LeafRef(a) in hashes {
        var j :| 0 <= j < |nodes| && nodes[j] == ProofNode(LeafRef(a), hashes[LeafRef(a)]);
        assert RefsOf(nodes)[j] == LeafRef(a);
      }
      if LeafRef(a) in RefsOf(nodes) {
        var j :| 0 <= j < |nodes| && RefsOf(nodes)[j] == LeafRef(a);
        assert nodes[j].ref in LeafRefs(addresses);
      }
    }
  }

  // ---- The proof built for a list of addresses ----

  /** The authentication nodes a plan needs. */
  function RequiredSet(addresses: seq<PhysicalAddress>, meta: HierarchyMetadata): (s: set<NodeRef>)
    requires Plannable(addresses, meta)
    ensures forall ref :: ref in s <==>
      ref.tree in Planned(addresses) && ref.position in PlanFor(addresses, meta, ref.tree).required
  {
    assert forall ref: NodeRef :: ref == NodeRef(ref.tree, ref.position);
    set t, p | t in Planned(addresses) && p in PlanFor(addresses, meta, t).required :: NodeRef(t, p)
  }

  /** Everything the plan needs is stored. */
  ghost predicate AllStored(storage: Storage, addresses: seq<PhysicalAddress>)
    requires Plannable(addresses, storage.meta)
  {
    forall ref :: ref in LeafRefs(addresses) || ref in RequiredSet(addresses, storage.meta) ==> IsStored(storage, ref)
  }

  function StoredLeaves(storage: Storage, addresses: seq<PhysicalAddress>): (r: seq<RequestedLeaf>)
    requires forall a :: a in addresses ==> IsStored(storage, LeafRef(a))
    ensures |r| == |addresses|
    ensures forall i :: 0 <= i < |r| ==> r[i] == RequestedLeaf(addresses[i], StoredHash(storage, LeafRef(addresses[i])))
  {
    seq(|addresses|,
        i requires 0 <= i < |addresses| => RequestedLeaf(addresses[i], StoredHash(storage, LeafRef(addresses[i]))))
  }

  /** The stored proof for normalized addresses. */
  ghost function ProofOf(storage: Storage, addresses: seq<PhysicalAddress>): HMFProof
    requires Plannable(addresses, storage.meta) && AllStored(storage, addresses)
  {
    assert forall a :: a in addresses ==> LeafRef(a) in LeafRefs(addresses);
    HMFProof(PlanOf(addresses, storage.meta), StoredLeaves(storage, addresses),
             ReadSet(storage, RequiredSet(addresses, storage.meta)))
  }

  /** Reads the rows of the requests' partitions; an error if one is missing. The nodes come in order. */
  method FetchProofNodes(rows: Rows, requests: seq<NodeRequest>, ghost storage: Storage)
    returns (r: Result<seq<ProofNode>>)
    requires AllKeyed(requests) && RowsFor(rows, storage.nodes)
    ensures r == Fetched(storage, AskedRefs(requests))
  {
    hide RowsFor, Keyed, IsStored, StoredHash, SortRefs, RefFor;
    var nodes: map<NodeRef, Digest> := map[];
    NothingCollected(storage, requests);
    for i := 0 to |requests|
      invariant Collected(storage, nodes, AskedRefs(requests[..i]))
    {
      var request := requests[i];
      var indexes := request.nodeIndexes;
      ghost var before := AskedRefs(requests[..i]);
      NoneYet(storage, nodes, before, request.key, indexes);
      for j := 0 to |indexes|
        invariant Collected(storage, nodes, before + RefsFor(request.key, indexes[..j]))
      {
        var row := RowAsked(request.key, indexes[j]);
        RowRead(rows, storage, requests, i, j);
        OneMoreRef(request.key, indexes, j);
        if row !in rows { return Err; }
        nodes := nodes[RefFor(request.key, indexes[j]) := rows[row]];
        assert before + RefsFor(request.key, indexes[..j + 1])
          == (before + RefsFor(request.key, indexes[..j])) + {RefFor(request.key, indexes[j])};
      }
      assert indexes[..|indexes|] == indexes;
      OneMoreRequest(requests, i);
    }
    assert requests[..|requests|] == requests;
    var refs := SortRefs(nodes.Keys);
    assert forall i :: 0 <= i < |refs| ==> refs[i] in refs;
    var result := seq(|refs|, i requires 0 <= i < |refs| => ProofNode(refs[i], nodes[refs[i]]));
    CollectedAre(storage, nodes, AskedRefs(requests), result);
    return Ok(result);
  }

  /** Every index of a request is asked for in the node's own partition. */
  ghost predicate AllKeyed(requests: seq<NodeRequest>) {
    forall i :: 0 <= i < |requests| ==> Keyed(requests[i].key, requests[i].nodeIndexes)
  }

  lemma AskedKeyed(requests: seq<NodeRequest>, wanted: seq<NodeRef>)
    requires Asks(requests, wanted)
    ensures AllKeyed(requests)
  {
    hide Keyed;
    forall i | 0 <= i < |requests| ensures Keyed(requests[i].key, requests[i].nodeIndexes) {
      assert AsksFor(requests[i], wanted);
    }
  }

  /** The nodes read so far are the stored ones of these references. */
  ghost predicate Collected(storage: Storage, nodes: map<NodeRef, Digest>, refs: set<NodeRef>) {
    && (forall ref :: ref in nodes <==> ref in refs)
    && forall ref :: ref in nodes ==> IsStored(storage, ref) && nodes[ref] == StoredHash(storage, ref)
  }

  function RefsFor(key: RequestKey, indexes: seq<int>): set<NodeRef> {
    set x | x in indexes :: RefFor(key, x)
  }

  lemma NothingCollected(storage: Storage, requests: seq<NodeRequest>)
    ensures requests[..0] == [] && Collected(storage, map[], AskedRefs(requests[..0]))
  {}

  lemma NoneYet(storage: Storage, nodes: map<NodeRef, Digest>, refs: set<NodeRef>, key: RequestKey, indexes: seq<int>)
    ensures refs + RefsFor(key, indexes[..0]) == refs
  {}

  lemma OneMoreRef(key: RequestKey, indexes: seq<int>, j: nat)
    requires j < |indexes|
    ensures RefsFor(key, indexes[..j + 1]) == RefsFor(key, indexes[..j]) + {RefFor(key, indexes[j])}
  {
    hide RefFor;
    assert indexes[..j + 1] == indexes[..j] + [indexes[j]];
  }

  lemma OneMoreRequest(requests: seq<NodeRequest>, i: nat)
    requires i < |requests|
    ensures AskedRefs(requests[..i + 1]) == AskedRefs(requests[..i])
                                          + RefsFor(requests[i].key, requests[i].nodeIndexes)
  {
    hide RefFor;
    var a, b := requests[..i], requests[..i + 1];
    forall ref ensures ref in AskedRefs(b) <==>
      ref in AskedRefs(a) + RefsFor(requests[i].key, requests[i].nodeIndexes) {
      if ref in AskedRefs(a) {
        var n, x :| 0 <= n < |a| && x in a[n].nodeIndexes && ref == RefFor(a[n].key, x);
        assert b[n] == a[n];
      }
      if ref in AskedRefs(b) {
        var n, x :| 0 <= n < |b| && x in b[n].nodeIndexes && ref == RefFor(b[n].key, x);
        if n < i { assert a[n] == b[n]; } else { assert b[n] == requests[i]; }
      }
      if ref in RefsFor(requests[i].key, requests[i].nodeIndexes) {
        assert b[i] == requests[i];
      }
    }
  }

  /** The row a request reads is there exactly if the node is stored, with its hash. */
  lemma RowRead(rows: Rows, storage: Storage, requests: seq<NodeRequest>, i: nat, j: nat)
    requires RowsFor(rows, storage.nodes) && AllKeyed(requests) && i < |requests| && j < |requests[i].nodeIndexes|
    ensures var key, x := requests[i].key, requests[i].nodeIndexes[j];
      && RefFor(key, x) in AskedRefs(requests) && (RowAsked(key, x) in rows <==> IsStored(storage, RefFor(key, x)))
      && (RowAsked(key, x) in rows ==> rows[RowAsked(key, x)] == StoredHash(storage, RefFor(key, x)))
  {
    hide KeyFor, RowFor, RowAsked, RefFor;
    var key, x := requests[i].key, requests[i].nodeIndexes[j];
    assert x in requests[i].nodeIndexes && Keyed(key, requests[i].nodeIndexes);
    AskedIsWritten(key, x);
    assert RowAgrees(rows, storage.nodes, RefFor(key, x));
  }

  lemma CollectedAre(storage: Storage, nodes: map<NodeRef, Digest>, refs: set<NodeRef>, result: seq<ProofNode>)
    requires Collected(storage, nodes, refs) && |result| == |SortRefs(nodes.Keys)|
    requires forall i :: 0 <= i < |result| ==>
      SortRefs(nodes.Keys)[i] in nodes
      && result[i] == ProofNode(SortRefs(nodes.Keys)[i], nodes[SortRefs(nodes.Keys)[i]])
    ensures Fetched(storage, refs) == Ok(result)
  {
    hide IsStored, StoredHash, SortRefs;
    assert nodes.Keys == refs;
    assert forall i :: 0 <= i < |result| ==> SortRefs(refs)[i] in SortRefs(refs);
    assert result == ReadSet(storage, refs);
  }

  method BuildProof(storage: Storage, rows: Rows, requested: seq<PhysicalAddress>) returns (r: Result<HMFProof>)
    requires RowsFor(rows, storage.nodes)
    ensures r.Ok? <==> Normalized(requested).Ok? && Plannable(Normalized(requested).value, storage.meta)
                       && AllStored(storage, Normalized(requested).value)
    ensures r.Ok? ==> r.value == ProofOf(storage, Normalized(requested).value)
  {
    hide Plannable, AllStored, Normalized, PlanOf, Asks, Splittable, LeafListed, Others, ProofOf, Wanted, IsStored,
      Fetched, LeafRefs, RequiredSet, AskedRefs, SegmentPlans, UpperPlans, RowsFor, AllKeyed;
    var addresses :- NormalizeAddresses(requested);
    NormalizeTwice(requested);
    if addresses == [] {
      NothingPlannable(storage.meta);
      return Err;
    }
    var plan :- Plan(addresses, storage.meta);
    var segments, uppers := BuildRequests(plan.trees);
    AsksAll(segments, Wanted(SegmentPlans(plan.trees)));
    AsksAll(uppers, Wanted(UpperPlans(plan.trees)));
    RequestsCover(addresses, storage.meta);
    PlanFetched(addresses, storage.meta, segments, uppers);
    StoredOrNot(storage, addresses);
    var nodes :- FetchProofNodes(rows, segments + uppers, storage);
    FetchedSplits(storage, addresses, nodes);
    var split := SplitTargetLeaves(addresses, nodes);  // cannot fail: every leaf was fetched, once
    LeavesStored(storage, addresses, nodes, split.value.0);
    r := Ok(HMFProof(plan, split.value.0, split.value.1));
    ProofIs(storage, addresses, r.value);
  }

  /** All requests of a plan together ask, each in the node's own partition, for what the proof needs. */
  lemma PlanFetched(addresses: seq<PhysicalAddress>, meta: HierarchyMetadata, segments: seq<NodeRequest>,
                    uppers: seq<NodeRequest>)
    requires Plannable(addresses, meta)
    requires Asks(segments, Wanted(SegmentPlans(PlanOf(addresses, meta).trees)))
    requires Asks(uppers, Wanted(UpperPlans(PlanOf(addresses, meta).trees)))
    ensures AllKeyed(segments + uppers)
    ensures AskedRefs(segments + uppers) == LeafRefs(addresses) + RequiredSet(addresses, meta)
  {
    hide Plannable, PlanOf, Asks, Wanted, LeafRefs, RequiredSet, AskedRefs, SegmentPlans, UpperPlans, Keyed;
    var trees := PlanOf(addresses, meta).trees;
    AskedKeyed(segments, Wanted(SegmentPlans(trees)));
    AskedKeyed(uppers, Wanted(UpperPlans(trees)));
    AsksAll(segments, Wanted(SegmentPlans(trees)));
    AsksAll(uppers, Wanted(UpperPlans(trees)));
    RequestsCover(addresses, meta);
    AskedBoth(segments, uppers);
  }

  lemma AskedBoth(a: seq<NodeRequest>, b: seq<NodeRequest>)
    ensures AskedRefs(a + b) == AskedRefs(a) + AskedRefs(b)
  {
    hide RefFor;
    forall ref ensures ref in AskedRefs(a + b) <==> ref in AskedRefs(a) + AskedRefs(b) {
      if ref in AskedRefs(a) {
        var n, x :| 0 <= n < |a| && x in a[n].nodeIndexes && ref == RefFor(a[n].key, x);
        assert (a + b)[n] == a[n];
      }
      if ref in AskedRefs(b) {
        var n, x :| 0 <= n < |b| && x in b[n].nodeIndexes && ref == RefFor(b[n].key, x);
        assert (a + b)[|a| + n] == b[n];
      }
      if ref in AskedRefs(a + b) {
        var n, x :| 0 <= n < |a + b| && x in (a + b)[n].nodeIndexes && ref == RefFor((a + b)[n].key, x);
        if n < |a| { assert (a + b)[n] == a[n]; } else { assert (a + b)[n] == b[n - |a|]; }
      }
    }
  }

  lemma ProofIs(storage: Storage, addresses: seq<PhysicalAddress>, proof: HMFProof)
    requires Plannable(addresses, storage.meta) && AllStored(storage, addresses)
    requires proof.plan == PlanOf(addresses, storage.meta)
    requires proof.leaves == ProofOf(storage, addresses).leaves && proof.nodes == ProofOf(storage, addresses).nodes
    ensures proof == ProofOf(storage, addresses)
  {
    hide Plannable, AllStored, PlanOf;
  }

  lemma NothingPlannable(meta: HierarchyMetadata)
    ensures !Plannable([], meta)
  {}

  lemma StoredOrNot(storage: Storage, addresses: seq<PhysicalAddress>)
    requires Plannable(addresses, storage.meta)
    ensures Fetched(storage, LeafRefs(addresses) + RequiredSet(addresses, storage.meta)).Ok? <==>
      AllStored(storage, addresses)
  {
    hide Plannable, RequiredSet, LeafRefs, IsStored;
    var refs := LeafRefs(addresses) + RequiredSet(addresses, storage.meta);
    if AllStored(storage, addresses) {
      assert forall ref :: ref in refs ==> IsStored(storage, ref);
    }
  }

  // ---- What the requests ask for ----

  /** The requests of a plan ask for the requested leaves and the required nodes, and nothing else. */
  lemma RequestsCover(addresses: seq<PhysicalAddress>, meta: HierarchyMetadata)
    requires Plannable(addresses, meta)
    ensures var trees := PlanOf(addresses, meta).trees;
      forall ref :: ref in Wanted(SegmentPlans(trees)) || ref in Wanted(UpperPlans(trees))
                    <==> ref in LeafRefs(addresses) + RequiredSet(addresses, meta)
  {
    hide Plannable, PlanOf, Wanted, LeafRefs, RequiredSet, SegmentPlans, UpperPlans, WantedOf;
    var trees := PlanOf(addresses, meta).trees;
    forall ref ensures ref in Wanted(SegmentPlans(trees)) || ref in Wanted(UpperPlans(trees))
                  <==> ref in LeafRefs(addresses) + RequiredSet(addresses, meta)
    {
      WantedSplit(trees, ref);
      PlanWants(addresses, meta, ref);
    }
  }

  ghost predicate SomeWants(trees: seq<TreePlan>, ref: NodeRef) {
    exists i :: 0 <= i < |trees| && Wants(trees[i], ref)
  }

  ghost predicate Wants(plan: TreePlan, ref: NodeRef) {
    ref in WantedOf(plan)
  }

  lemma {:induction false} WantedSplit(trees: seq<TreePlan>, ref: NodeRef)
    ensures ref in Wanted(SegmentPlans(trees)) || ref in Wanted(UpperPlans(trees)) <==> SomeWants(trees, ref)
    decreases |trees|
  {
    hide Wanted, WantedOf, SegmentPlans, UpperPlans, SomeWants;
    if trees == [] {
      NoneWanted();
      NoneWants(ref);
    } else {
      var rest, last := trees[..|trees| - 1], trees[|trees| - 1];
      WantedSplit(rest, ref);
      LastWanted(trees, ref);
      LastWants(trees, ref);
    }
  }

  lemma NoneWants(ref: NodeRef)
    ensures !SomeWants([], ref)
  {}

  lemma LastWants(trees: seq<TreePlan>, ref: NodeRef)
    requires trees != []
    ensures SomeWants(trees, ref) <==> SomeWants(trees[..|trees| - 1], ref) || Wants(trees[|trees| - 1], ref)
  {
    hide Wants;
    if SomeWants(trees[..|trees| - 1], ref) {
      var i :| 0 <= i < |trees| - 1 && Wants(trees[..|trees| - 1][i], ref);
      assert Wants(trees[i], ref);
    }
  }

  lemma LastWanted(trees: seq<TreePlan>, ref: NodeRef)
    requires trees != []
    ensures var rest, last := trees[..|trees| - 1], trees[|trees| - 1];
      ref in Wanted(SegmentPlans(trees)) || ref in Wanted(UpperPlans(trees))
      <==> ref in Wanted(SegmentPlans(rest)) || ref in Wanted(UpperPlans(rest)) || Wants(last, ref)
  {
    hide Wanted, TargetRefs, RequiredRefs, SegmentPlans, UpperPlans;
    PlanSplit(trees, |trees| - 1);
    assert trees[..|trees| - 1 + 1] == trees;
  }

  lemma PlanWants(addresses: seq<PhysicalAddress>, meta: HierarchyMetadata, ref: NodeRef)
    requires Plannable(addresses, meta)
    ensures SomeWants(PlanOf(addresses, meta).trees, ref) <==> ref in LeafRefs(addresses) + RequiredSet(addresses, meta)
  {
    hide Plannable, TreePlannable, WantedOf, PlanFor, LeafRefs, RequiredSet, Wants, PlanOf, Planned;
    var trees := PlanOf(addresses, meta).trees;
    if SomeWants(trees, ref) {
      var i :| 0 <= i < |trees| && Wants(trees[i], ref);
      PlanAt(addresses, meta, i);
      TreeWants(addresses, meta, trees[i].tree, ref);
    }
    if ref in LeafRefs(addresses) + RequiredSet(addresses, meta) {
      TreePlanned(addresses, meta, ref);
      TreeWants(addresses, meta, ref.tree, ref);
      var i := PlanFound(addresses, meta, ref.tree);
    }
  }

  lemma PlanAt(addresses: seq<PhysicalAddress>, meta: HierarchyMetadata, i: nat)
    requires Plannable(addresses, meta) && i < |PlanOf(addresses, meta).trees|
    ensures var plan := PlanOf(addresses, meta).trees[i];
      plan.tree in Planned(addresses) && TreePlannable(addresses, meta, plan.tree)
      && plan == PlanFor(addresses, meta, plan.tree)
  {
    hide CanonicalPlan, TreePlannable, Planned;
    var sorted := SortTrees(Planned(addresses));
    assert sorted[i] in sorted;
    PlanNamed(addresses, meta, sorted[i]);
  }

  lemma PlanNamed(addresses: seq<PhysicalAddress>, meta: HierarchyMetadata, t: TreeRef)
    requires TreePlannable(addresses, meta, t)
    ensures PlanFor(addresses, meta, t).tree == t
  {}

  lemma PlanFound(addresses: seq<PhysicalAddress>, meta: HierarchyMetadata, t: TreeRef) returns (i: nat)
    requires Plannable(addresses, meta) && t in Planned(addresses)
    ensures TreePlannable(addresses, meta, t)
    ensures i < |PlanOf(addresses, meta).trees| && PlanOf(addresses, meta).trees[i] == PlanFor(addresses, meta, t)
  {
    hide PlanFor, TreePlannable, Planned;
    var sorted := SortTrees(Planned(addresses));
    assert t in sorted;
    i :| 0 <= i < |sorted| && sorted[i] == t;
  }

  lemma TreePlanned(addresses: seq<PhysicalAddress>, meta: HierarchyMetadata, ref: NodeRef)
    requires Plannable(addresses, meta) && ref in LeafRefs(addresses) + RequiredSet(addresses, meta)
    ensures ref.tree in Planned(addresses)
  {
    hide Plannable, PlanFor;
    if ref in LeafRefs(addresses) {
      var a :| a in addresses && ref == LeafRef(a);
      assert SegmentOf(a) in PlannedAt(addresses, LAYER_SEGMENT);
    }
  }

  lemma TreeWants(addresses: seq<PhysicalAddress>, meta: HierarchyMetadata, t: TreeRef, ref: NodeRef)
    requires Plannable(addresses, meta) && t in Planned(addresses)
    ensures TreePlannable(addresses, meta, t)
    ensures Wants(PlanFor(addresses, meta, t), ref)
       <==> ref.tree == t && ref in LeafRefs(addresses) + RequiredSet(addresses, meta)
  {
    hide CanonicalPlan, TreePlannable, Planned, TargetRefs, RequiredRefs, LeafRefs, PlanFor;
    var plan := PlanFor(addresses, meta, t);
    PlanNamed(addresses, meta, t);
    if t.layer == LAYER_SEGMENT {
      TargetsAreLeaves(addresses, meta, t, ref);
    } else if ref.tree == t {
      OnlySegmentsHaveLeaves(addresses, ref);
    }
    RequiredIs(plan, ref);
  }

  lemma OnlySegmentsHaveLeaves(addresses: seq<PhysicalAddress>, ref: NodeRef)
    requires ref.tree.layer != LAYER_SEGMENT
    ensures ref !in LeafRefs(addresses)
  {}

  lemma RequiredIs(plan: TreePlan, ref: NodeRef)
    ensures ref in RequiredRefs(plan) <==> ref.tree == plan.tree && ref.position in plan.required
  {
    if ref.tree == plan.tree && ref.position in plan.required {
      var i :| 0 <= i < |plan.required| && plan.required[i] == ref.position;
      assert RequiredRefs(plan)[i] == ref;
    }
  }

  lemma TargetsAreLeaves(addresses: seq<PhysicalAddress>, meta: HierarchyMetadata, t: TreeRef, ref: NodeRef)
    requires TreePlannable(addresses, meta, t) && t.layer == LAYER_SEGMENT
    ensures ref in TargetRefs(PlanFor(addresses, meta, t)) <==> ref.tree == t && ref in LeafRefs(addresses)
  {
    hide NeededSet;
    var plan := PlanFor(addresses, meta, t);
    if ref.tree == t && ref in LeafRefs(addresses) {
      var a :| a in addresses && ref == LeafRef(a);
      assert a.leafID in plan.targets;
      var i :| 0 <= i < |plan.targets| && plan.targets[i] == a.leafID;
      assert TargetRefs(plan)[i] == ref;
    }
    if ref in TargetRefs(plan) {
      var i :| 0 <= i < |plan.targets| && TargetRefs(plan)[i] == ref;
      assert plan.targets[i] in plan.targets;
      var a :| a in addresses && SegmentOf(a) == t && a.leafID == plan.targets[i];
      assert ref == LeafRef(a);
    }
  }

  // ---- Splitting what was fetched ----

  function OtherRefs(refs: seq<NodeRef>, targets: set<NodeRef>): seq<NodeRef> {
    if refs == [] then [] else
      var last := refs[|refs| - 1];
      OtherRefs(refs[..|refs| - 1], targets) + if last in targets then [] else [last]
  }

  lemma {:induction false} OtherRefsSorted(refs: seq<NodeRef>, targets: set<NodeRef>)
    requires Sorted(RefLess, refs)
    ensures Sorted(RefLess, OtherRefs(refs, targets))
    ensures forall ref :: ref in OtherRefs(refs, targets) <==> ref in refs && ref !in targets
    decreases |refs|
  {
    hide RefLess;
    if refs != [] {
      var rest, last := refs[..|refs| - 1], refs[|refs| - 1];
      OtherRefsSorted(rest, targets);
      var others := OtherRefs(rest, targets);
      assert refs == rest + [last];
      forall i | 0 <= i < |others| ensures RefLess(others[i], last) {
        assert others[i] in others;
        var k :| 0 <= k < |rest| && rest[k] == others[i];
        assert RefLess(refs[k], refs[|refs| - 1]);
      }
    }
  }

  lemma {:induction false} OthersRead(storage: Storage, refs: seq<NodeRef>, targets: set<NodeRef>)
    requires forall ref :: ref in refs ==> IsStored(storage, ref)
    ensures (forall ref :: ref in OtherRefs(refs, targets) ==> ref in refs)
         && Others(Read(storage, refs), targets) == Read(storage, OtherRefs(refs, targets))
    decreases |refs|
  {
    hide IsStored;
    if refs != [] {
      var rest := refs[..|refs| - 1];
      OthersRead(storage, rest, targets);
      assert Read(storage, refs)[..|refs| - 1] == Read(storage, rest);
    }
  }

  lemma FetchedSplits(storage: Storage, addresses: seq<PhysicalAddress>, nodes: seq<ProofNode>)
    requires Plannable(addresses, storage.meta) && AllStored(storage, addresses)
    requires Fetched(storage, LeafRefs(addresses) + RequiredSet(addresses, storage.meta)) == Ok(nodes)
    ensures Splittable(addresses, nodes)
    ensures Others(nodes, LeafRefs(addresses)) == ProofOf(storage, addresses).nodes
  {
    hide Plannable, IsStored, LeafRefs, RequiredSet, LeafRef, NoneTwice, Others, ReadSet, StoredLeaves, PlanOf, RefsOf;
    var targets, required := LeafRefs(addresses), RequiredSet(addresses, storage.meta);
    TargetsNotRequired(addresses, storage.meta);
    ReadSplits(storage, targets, required);
    forall a | a in addresses ensures LeafRef(a) in RefsOf(nodes) { LeafRefIn(addresses, a); }
  }

  /** Reading both sets and setting aside the first leaves a reading of the second. */
  lemma ReadSplits(storage: Storage, targets: set<NodeRef>, required: set<NodeRef>)
    requires forall ref :: ref in targets + required ==> IsStored(storage, ref)
    requires forall ref :: ref in targets ==> ref !in required
    ensures var nodes := ReadSet(storage, targets + required);
      && NoneTwice(nodes, targets) && Others(nodes, targets) == ReadSet(storage, required)
      && (forall ref :: ref in RefsOf(nodes) <==> ref in targets + required)
  {
    hide IsStored, RefLess, NoneTwice, Others, Sorted, OtherRefs;
    var refs := SortRefs(targets + required);
    assert RefsOf(Read(storage, refs)) == refs;
    SortedNoneTwice(Read(storage, refs), targets);
    OthersRead(storage, refs, targets);
    OthersRequired(targets, required);
  }

  lemma SortedNoneTwice(nodes: seq<ProofNode>, targets: set<NodeRef>)
    requires Sorted(RefLess, RefsOf(nodes))
    ensures NoneTwice(nodes, targets)
  {
    hide RefLess;
    RefOrder();
    forall i, j | 0 <= i < j < |nodes| ensures nodes[i].ref != nodes[j].ref {
      assert RefLess(RefsOf(nodes)[i], RefsOf(nodes)[j]);
    }
  }

  lemma OthersRequired(targets: set<NodeRef>, required: set<NodeRef>)
    requires forall ref :: ref in targets ==> ref !in required
    ensures OtherRefs(SortRefs(targets + required), targets) == SortRefs(required)
  {
    hide RefLess, OtherRefs;
    RefOrder();
    var refs := SortRefs(targets + required);
    OtherRefsSorted(refs, targets);
    SortedUnique(RefLess, OtherRefs(refs, targets), SortRefs(required));
  }

  lemma LeafRefIn(addresses: seq<PhysicalAddress>, a: PhysicalAddress)
    requires a in addresses
    ensures LeafRef(a) in LeafRefs(addresses)
  {}

  /** A requested leaf is never also an authentication node. */
  lemma TargetsNotRequired(addresses: seq<PhysicalAddress>, meta: HierarchyMetadata)
    requires Plannable(addresses, meta)
    ensures forall ref :: ref in LeafRefs(addresses) ==> ref !in RequiredSet(addresses, meta)
  {
    hide CanonicalPlan, TreePlannable, Planned, PlanFor;
    forall a | a in addresses ensures LeafRef(a) !in RequiredSet(addresses, meta) {
      if SegmentOf(a) in Planned(addresses) { TargetNotRequired(addresses, meta, a); }
    }
  }

  lemma TargetNotRequired(addresses: seq<PhysicalAddress>, meta: HierarchyMetadata, a: PhysicalAddress)
    requires a in addresses && TreePlannable(addresses, meta, SegmentOf(a))
    ensures Position(0, a.leafID) !in PlanFor(addresses, meta, SegmentOf(a)).required
  {
    hide Width, Height;
    var t := SegmentOf(a);
    var targets := PlannedTargets(addresses, meta, t);
    assert a.leafID in targets;
    assert !Needed(LeafCountOf(meta, t), targets, Position(0, a.leafID));
  }

  lemma LeavesStored(storage: Storage, addresses: seq<PhysicalAddress>, nodes: seq<ProofNode>,
                     leaves: seq<RequestedLeaf>)
    requires Plannable(addresses, storage.meta) && AllStored(storage, addresses)
    requires Fetched(storage, LeafRefs(addresses) + RequiredSet(addresses, storage.meta)) == Ok(nodes)
    requires AddressesOf(leaves) == addresses && forall i :: 0 <= i < |addresses| ==> LeafListed(nodes, leaves[i])
    ensures leaves == ProofOf(storage, addresses).leaves
  {
    hide Plannable, IsStored, LeafRefs, RequiredSet, LeafRef, ReadSet, PlanOf, AddressesOf;
    ReadSetHolds(storage, LeafRefs(addresses) + RequiredSet(addresses, storage.meta));
    forall a | a in addresses ensures LeafRef(a) in LeafRefs(addresses) { LeafRefIn(addresses, a); }
    StoredLeavesAre(storage, addresses, nodes, leaves);
  }

  lemma ReadSetHolds(storage: Storage, refs: set<NodeRef>)
    requires forall ref :: ref in refs ==> IsStored(storage, ref)
    ensures forall node :: node in ReadSet(storage, refs) ==>
      node.ref in refs && node.hash == StoredHash(storage, node.ref)
  {
    hide IsStored, Sorted;
    forall node | node in ReadSet(storage, refs)
      ensures node.ref in refs && node.hash == StoredHash(storage, node.ref) {
      assert forall i :: 0 <= i < |SortRefs(refs)| ==> SortRefs(refs)[i] in SortRefs(refs);
    }
  }

  lemma StoredLeavesAre(storage: Storage, addresses: seq<PhysicalAddress>, nodes: seq<ProofNode>,
                        leaves: seq<RequestedLeaf>)
    requires forall a :: a in addresses ==> IsStored(storage, LeafRef(a))
    requires forall node :: node in nodes ==> IsStored(storage, node.ref) && node.hash == StoredHash(storage, node.ref)
    requires AddressesOf(leaves) == addresses && forall i :: 0 <= i < |addresses| ==> LeafListed(nodes, leaves[i])
    ensures leaves == StoredLeaves(storage, addresses)
  {
    hide IsStored, LeafRef;
    forall i | 0 <= i < |addresses| ensures leaves[i] == StoredLeaves(storage, addresses)[i] {
      assert leaves[i].address == AddressesOf(leaves)[i];
      var node := ProofNode(LeafRef(leaves[i].address), leaves[i].hash);
      assert node in nodes;
    }
  }
}
