/** What an accepted proof proves (internal/hpp/verifier.go): if its root is the forest's, then
    everything in it is the forest's own, or the hash collides. */
module ProofSoundness {
  import opened Hashing
  import opened Merkle
  import opened ProofTypes
  import opened TreePlanning
  import opened TreeFold
  import opened TreeProofs
  import opened Forests
  import opened ForestTrees
  import opened ProofInputs
  import opened Verifier

  /** Everything the verifier hashes. */
  function RunPreimages(inp: Inputs): set<Preimage>
    requires PlansValid(inp.plans)
  {
    (set t, p | t in inp.plans && p in FoldPreimages(inp.plans[t].leafCount, KnownLeaves(inp, t), NodesOf(inp.nodes, t))
     :: p)
    + (set t | t in inp.plans :: PlanCommitted(inp, t))
  }

  function PlanCommitted(inp: Inputs, t: TreeRef): Preimage
    requires t in inp.plans
  {
    Commitment(t, inp.plans[t].leafCount, RawRootOf(inp, t))
  }

  /** The planned tree is a tree of the forest, with its size and root. */
  ghost predicate TreeSound(f: Forest, contents: Contents, inp: Inputs, t: TreeRef)
    requires Stored(f, contents)
  {
    && t in inp.plans && HasTree(f, t)
    && inp.plans[t].leafCount == |LeavesOf(f, contents, t)|
    && RawRootOf(inp, t) == RawRoot(LeavesOf(f, contents, t))
  }

  /** The leaves and nodes supplied for the tree are its own. */
  ghost predicate NodesSound(f: Forest, contents: Contents, inp: Inputs, t: TreeRef)
    requires Stored(f, contents) && TreeSound(f, contents, inp, t)
  {
    Genuine(LeavesOf(f, contents, t), KnownLeaves(inp, t), NodesOf(inp.nodes, t))
  }

  /** A parent link names the position its child has in the forest. */
  ghost predicate LinkSound(f: Forest, inp: Inputs, s: Slot)
    requires s in inp.children
  {
    inp.children[s] == ChildAt(f, s.parent, s.index)
  }

  ghost predicate Sound(f: Forest, contents: Contents, inp: Inputs)
    requires Stored(f, contents)
  {
    && (forall t :: t in inp.plans ==> TreeSound(f, contents, inp, t) && NodesSound(f, contents, inp, t))
    && (forall s :: s in inp.children ==> LinkSound(f, inp, s))
  }

  /** Soundness: an accepted proof with the forest's root has the forest's tree sizes, link
      positions, leaves and nodes; or a collision between something the verifier hashed and
      something the forest hashed. */
  lemma ProofsAreSound(f: Forest, contents: Contents, proof: HMFProof, addresses: seq<PhysicalAddress>)
    requires Stored(f, contents) && VerifiedRoot(proof, addresses) == Ok(ForestRoot(f))
    ensures Sound(f, contents, InputsOf(proof))
         || Collide(RunPreimages(InputsOf(proof)), ForestPreimages(f, contents))
  {
    hide Stored, ForestRoot, Sound, Collide, RunPreimages, ForestPreimages, GlobalRootOf;
    var inp := InputsOf(proof);
    if !Collide(RunPreimages(inp), ForestPreimages(f, contents)) {
      InputsSound(f, contents, inp);
    }
  }

  lemma InputsSound(f: Forest, contents: Contents, inp: Inputs)
    requires Stored(f, contents) && ValidInputs(inp) && GlobalRootOf(inp) == ForestRoot(f)
    requires !Collide(RunPreimages(inp), ForestPreimages(f, contents))
    ensures Sound(f, contents, inp)
  {
    hide Stored, ForestRoot, ForestPreimages, TreeSound, NodesSound, RunPreimages, Collide, ValidInputs, HasTree,
      LinkSound;
    forall t | t in inp.plans ensures TreeSound(f, contents, inp, t) && NodesSound(f, contents, inp, t) {
      PlanSound(f, contents, inp, t);
      SuppliedSound(f, contents, inp, t);
    }
    forall s | s in inp.children ensures LinkSound(f, inp, s) {
      LinkFound(inp, s);
      PlanSound(f, contents, inp, s.parent);
      SuppliedSound(f, contents, inp, s.parent);
      ChildSound(f, contents, inp, s);
    }
  }

  /** From the Global tree down, layer by layer. */
  lemma {:induction false} PlanSound(f: Forest, contents: Contents, inp: Inputs, t: TreeRef)
    requires Stored(f, contents) && ValidInputs(inp) && GlobalRootOf(inp) == ForestRoot(f) && t in inp.plans
    requires !Collide(RunPreimages(inp), ForestPreimages(f, contents))
    ensures TreeSound(f, contents, inp, t)
    decreases LAYER_GLOBAL - t.layer
  {
    hide Stored, ForestRoot, ForestPreimages, TreeSound, NodesSound, RunPreimages, Collide, ValidInputs, HasTree,
      GlobalRootOf;
    if t == GLOBAL_TREE {
      GlobalSound(f, contents, inp);
    } else {
      var s := SlotOf(inp, t);
      PlanSound(f, contents, inp, s.parent);
      SuppliedSound(f, contents, inp, s.parent);
      ChildSound(f, contents, inp, s);
    }
  }

  lemma LinkFound(inp: Inputs, s: Slot)
    requires ValidInputs(inp) && s in inp.children
    ensures s.parent in inp.plans && inp.children[s] in inp.plans && inp.children[s].layer == s.parent.layer - 1
    ensures inp.children[s].layer >= LAYER_SEGMENT
  {
    hide PlansValid, NodesPlanned, AllLinked, TargetsGiven;
  }

  lemma SlotOf(inp: Inputs, t: TreeRef) returns (s: Slot)
    requires ValidInputs(inp) && t in inp.plans && t != GLOBAL_TREE
    ensures s in inp.children && inp.children[s] == t && s.parent in inp.plans
    ensures s.parent.layer == t.layer + 1 <= LAYER_GLOBAL
  {
    hide PlansValid, NodesPlanned, TargetsGiven;
    assert t.layer != LAYER_GLOBAL;
    s :| s in inp.children && inp.children[s] == t;
  }

  lemma GlobalSound(f: Forest, contents: Contents, inp: Inputs)
    requires Stored(f, contents) && ValidInputs(inp) && GlobalRootOf(inp) == ForestRoot(f)
    requires !Collide(RunPreimages(inp), ForestPreimages(f, contents))
    ensures TreeSound(f, contents, inp, GLOBAL_TREE)
  {
    hide Stored, ForestRoot, ForestPreimages, RunPreimages, LeavesOf, RawRoot, RawRootOf, Static, TargetsGiven;
    GlobalRootIs(f, contents);
    TreeHashed(f, contents, GLOBAL_TREE);
    PlanHashed(inp, GLOBAL_TREE);
    CommittedRootIs(GLOBAL_TREE, inp.plans[GLOBAL_TREE].leafCount, RawRootOf(inp, GLOBAL_TREE));
    assert PlanCommitted(inp, GLOBAL_TREE) == TreeCommitted(f, contents, GLOBAL_TREE);
  }

  lemma PlanHashed(inp: Inputs, t: TreeRef)
    requires ValidInputs(inp) && t in inp.plans
    ensures PlanCommitted(inp, t) in RunPreimages(inp) && ValidTargets(inp.plans[t].leafCount, TargetSet(inp.plans[t]))
    ensures Within(FoldPreimages(inp.plans[t].leafCount, KnownLeaves(inp, t), NodesOf(inp.nodes, t)), RunPreimages(inp))
  {
    hide FoldPreimages, KnownLeaves, NodesOf, PlanCommitted, NodesPlanned, LinksValid, AllLinked, TargetsGiven;
    assert ValidShape(inp.plans[t]);
  }

  lemma SuppliedSound(f: Forest, contents: Contents, inp: Inputs, t: TreeRef)
    requires Stored(f, contents) && ValidInputs(inp) && t in inp.plans && TreeSound(f, contents, inp, t)
    requires !Collide(RunPreimages(inp), ForestPreimages(f, contents))
    ensures NodesSound(f, contents, inp, t)
  {
    hide Stored, ForestPreimages, RunPreimages, LeavesOf, RawRootOf, PlansValid, NodesPlanned, LinksValid, AllLinked,
      TargetsGiven, Root, FoldRoot, FoldPreimages, TreePreimages, Genuine, Foldable, Collide, KnownLeaves, NodesOf,
      Within;
    var known := KnownLeaves(inp, t);
    GivenFoldable(inp, t, known);
    TreeIs(inp, t);
    TreeHashed(f, contents, t);
    PlanHashed(inp, t);
    FoldGenuine(LeavesOf(f, contents, t), known, NodesOf(inp.nodes, t), RunPreimages(inp),
                ForestPreimages(f, contents));
  }

  /** Different canonical trees have different commitments. */
  lemma CommitmentInjective(t: TreeRef, u: TreeRef, n: int, m: int, r: Digest, q: Digest)
    requires Commitment(t, n, r) == Commitment(u, m, q) && t.layer == u.layer && Canonical(t) && Canonical(u)
    ensures t == u && n == m && r == q
  {}

  /** Upper trees are named without the identifiers of the layers below. */
  predicate Canonical(t: TreeRef) {
    if t.layer == LAYER_SEGMENT then true
    else if t.layer == LAYER_SHARD then t == ShardTree(t.regionID, t.shardID)
    else if t.layer == LAYER_REGION then t == RegionTree(t.regionID)
    else t == GLOBAL_TREE
  }

  /** Every accepted plan is for a canonically named tree: an upper tree has a child whose
      link fixes its name. */
  lemma PlansCanonical(inp: Inputs, t: TreeRef)
    requires ValidInputs(inp) && t in inp.plans
    ensures Canonical(t)
  {
    hide PlansValid, NodesPlanned, AllLinked, ValidParentLink;
    KnownLayer(inp, t);
    PlanHashed(inp, t);
    assert TargetsGiven(inp, t);
    if t.layer != LAYER_SEGMENT {
      var i :| i in GivenTargets(inp, t);
      var s :| s in inp.children && s.parent == t && s.index == i;
      LinkNames(inp.children[s], t);
    }
  }

  lemma LinkNames(child: TreeRef, parent: TreeRef)
    requires ValidParentLink(child, parent)
    ensures Canonical(parent)
  {}

  lemma ChildSound(f: Forest, contents: Contents, inp: Inputs, s: Slot)
    requires Stored(f, contents) && ValidInputs(inp) && s in inp.children
    requires TreeSound(f, contents, inp, s.parent) && NodesSound(f, contents, inp, s.parent)
    requires !Collide(RunPreimages(inp), ForestPreimages(f, contents))
    ensures LinkSound(f, inp, s) && TreeSound(f, contents, inp, inp.children[s])
  {
    hide Stored, ForestPreimages, RunPreimages, LeavesOf, RawRootOf, ValidInputs, Commitment, Canonical, RawRoot,
      KnownLeaves, HasTree, ChildAt;
    var t, c := s.parent, inp.children[s];
    LinkFound(inp, s);
    GivenLeaf(inp, s);
    LeafIsChild(f, contents, t, s.index);
    var c' := ChildAt(f, t, s.index);
    TreeHashed(f, contents, c');
    PlanHashed(inp, c);
    assert PlanCommitted(inp, c) == TreeCommitted(f, contents, c');
    PlansCanonical(inp, c);
    TreesCanonical(f, c');
    CommitmentInjective(c, c', inp.plans[c].leafCount, |LeavesOf(f, contents, c')|, RawRootOf(inp, c),
                        RawRoot(LeavesOf(f, contents, c')));
  }

  lemma GivenLeaf(inp: Inputs, s: Slot)
    requires ValidInputs(inp) && s in inp.children
    ensures s.index in KnownLeaves(inp, s.parent) && inp.children[s] in inp.plans
    ensures KnownLeaves(inp, s.parent)[s.index] == H(PlanCommitted(inp, inp.children[s]))
  {
    hide RawRootOf, Commitment, PlansValid, NodesPlanned, LinksValid, AllLinked, CommittedRoot, KnownLeaves;
    LinkFound(inp, s);
    assert s == Slot(s.parent, s.index);
    KnownLayer(inp, inp.children[s]);
    CommittedRootIs(inp.children[s], inp.plans[inp.children[s]].leafCount, RawRootOf(inp, inp.children[s]));
  }

  lemma TreesCanonical(f: Forest, t: TreeRef)
    requires HasTree(f, t)
    ensures Canonical(t)
  {}

  // ---- Which leaves a proof binds ----

  /** A sound proof carries the stored hash of every requested leaf whose segment it plans. */
  lemma CoveredLeafIsStored(f: Forest, contents: Contents, inp: Inputs, a: PhysicalAddress)
    requires Stored(f, contents) && Sound(f, contents, inp) && a in inp.leaves && SegmentOf(a) in inp.plans
    ensures HasTree(f, SegmentOf(a)) && 0 <= a.leafID < |LeavesOf(f, contents, SegmentOf(a))|
    ensures inp.leaves[a] == LeavesOf(f, contents, SegmentOf(a))[a.leafID]
  {
    hide Stored, LeavesOf, RawRootOf, RawRoot;
    var t := SegmentOf(a);
    assert a == LeafAddress(t, a.leafID) && a.leafID in GivenTargets(inp, t);
    assert NodesSound(f, contents, inp, t);
  }

  function WithLeaf(proof: HMFProof, k: int, hash: Digest): HMFProof
    requires 0 <= k < |proof.leaves|
  {
    proof.(leaves := proof.leaves[k := proof.leaves[k].(hash := hash)])
  }

  /** The verifier does not check that every requested segment is planned. It binds the k-th
      leaf exactly when its segment is: another hash then changes the outcome (or the hash
      collides), and otherwise any hash is accepted with the same root. */
  lemma LeafBoundIffPlanned(f: Forest, contents: Contents, proof: HMFProof, addresses: seq<PhysicalAddress>, k: int,
                            hash: Digest)
    requires Stored(f, contents) && VerifiedRoot(proof, addresses) == Ok(ForestRoot(f))
    requires 0 <= k < |proof.leaves| && hash != proof.leaves[k].hash
    ensures var planned := SegmentOf(proof.leaves[k].address) in InputsOf(proof).plans;
      var accepted := VerifiedRoot(WithLeaf(proof, k, hash), addresses) == Ok(ForestRoot(f));
      && (!planned ==> accepted)
      && (planned && accepted ==>
           || Collide(RunPreimages(InputsOf(proof)), ForestPreimages(f, contents))
           || Collide(RunPreimages(InputsOf(WithLeaf(proof, k, hash))), ForestPreimages(f, contents)))
  {
    hide WellFormed, Backed, ForestRoot, Sound, Collide, RunPreimages, ForestPreimages, Distinct, LeavesRequested,
      LeavesOf, InputsOf, GlobalRootOf, PlansValid, NodesPlanned, LinksValid, AllLinked, TargetsGiven;
    var proof' := WithLeaf(proof, k, hash);
    LeafReplaced(proof, k, hash);
    var inp, inp' := InputsOf(proof), InputsOf(proof');
    var a := proof.leaves[k].address;
    if SegmentOf(a) !in inp.plans {
      UnplannedLeafIsFree(proof, addresses, k, hash);
    } else if VerifiedRoot(proof', addresses) == Ok(ForestRoot(f)) {
      ProofsAreSound(f, contents, proof, addresses);
      ProofsAreSound(f, contents, proof', addresses);
      if Sound(f, contents, inp) && Sound(f, contents, inp') {
        CoveredLeafIsStored(f, contents, inp, a);
        CoveredLeafIsStored(f, contents, inp', a);
      }
    }
  }

  lemma LeafReplaced(proof: HMFProof, k: int, hash: Digest)
    requires 0 <= k < |proof.leaves| && Distinct(AddressesOf(proof.leaves))
    ensures var inp, inp', a := InputsOf(proof), InputsOf(WithLeaf(proof, k, hash)), proof.leaves[k].address;
      && AddressesOf(WithLeaf(proof, k, hash).leaves) == AddressesOf(proof.leaves)
      && inp'.plans == inp.plans && inp'.nodes == inp.nodes && inp'.children == inp.children
      && inp'.leaves.Keys == inp.leaves.Keys && a in inp.leaves
      && inp.leaves[a] == proof.leaves[k].hash && inp'.leaves[a] == hash
      && (forall b :: b in inp.leaves && b != a ==> inp'.leaves[b] == inp.leaves[b])
  {
    var proof' := WithLeaf(proof, k, hash);
    var addresses := AddressesOf(proof.leaves);
    assert AddressesOf(proof'.leaves) == addresses;
    assert addresses[k] == proof.leaves[k].address;
    forall b | b in addresses && b != addresses[k] ensures InputsOf(proof').leaves[b] == InputsOf(proof).leaves[b] {
      var i :| 0 <= i < |addresses| && addresses[i] == b;
      assert LeafHashesOf(proof'.leaves)[i] == LeafHashesOf(proof.leaves)[i];
    }
  }

  lemma UnplannedLeafIsFree(proof: HMFProof, addresses: seq<PhysicalAddress>, k: int, hash: Digest)
    requires Acceptable(proof, addresses) && 0 <= k < |proof.leaves|
    requires SegmentOf(proof.leaves[k].address) !in InputsOf(proof).plans
    ensures VerifiedRoot(WithLeaf(proof, k, hash), addresses) == VerifiedRoot(proof, addresses)
  {
    hide InputsOf, ToMap, RawRootOf, PlansValid, NodesPlanned, LinksValid, AllLinked, KnownLeaves;
    LeafReplaced(proof, k, hash);
    var inp, inp' := InputsOf(proof), InputsOf(WithLeaf(proof, k, hash));
    forall t | t in inp.plans
      ensures GivenTargets(inp', t) == GivenTargets(inp, t) && RawRootOf(inp', t) == RawRootOf(inp, t) {
      SameRoots(inp, inp', proof.leaves[k].address, t);
    }
    forall t | t in inp'.plans ensures TargetsGiven(inp', t) { assert TargetsGiven(inp, t); }
  }

  /** A leaf of an unplanned segment plays no part in any root. */
  lemma {:induction false} SameRoots(inp: Inputs, inp': Inputs, a: PhysicalAddress, t: TreeRef)
    requires ValidInputs(inp) && t in inp.plans && SegmentOf(a) !in inp.plans
    requires inp'.plans == inp.plans && inp'.nodes == inp.nodes && inp'.children == inp.children
    requires forall b :: b != a ==>
      (b in inp'.leaves <==> b in inp.leaves) && (b in inp.leaves ==> inp'.leaves[b] == inp.leaves[b])
    ensures GivenTargets(inp', t) == GivenTargets(inp, t) && RawRootOf(inp', t) == RawRootOf(inp, t)
    decreases t.layer
  {
    hide ValidInputs, KnownLeaves, CommittedRoot, FoldRoot;
    assert GivenTargets(inp', t) == GivenTargets(inp, t);
    forall i | i in KnownLeaves(inp, t) ensures KnownLeaves(inp', t)[i] == KnownLeaves(inp, t)[i] {
      if t.layer != LAYER_SEGMENT {
        var s := Slot(t, i);
        LinkFound(inp, s);
        SameRoots(inp, inp', a, inp.children[s]);
      }
    }
    assert KnownLeaves(inp', t) == KnownLeaves(inp, t);
  }
}
