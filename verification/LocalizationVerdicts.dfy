/** What an accepted localization transcript proves to somebody who trusts only the anchored root
    (internal/localization/service.go:100-137). */
module LocalizationVerdicts {
  import opened Hashing
  import opened Merkle
  import opened ProofTypes
  import opened Forests
  import opened ForestTrees
  import opened ProofInputs
  import opened ProofBuilding
  import opened Verifier
  import opened ProofSoundness
  import opened StoredForest
  import opened ReferenceProofs
  import opened Localization
  import opened LocalizationProofs
  import opened LocalizationExact
  import opened LocalizationRounds
  import opened LocalizationService

  /** Every suspect found in a tree is the report of a node that does not match. */
  lemma {:induction false} FoundIs(c: Context, active: seq<Position>, level: nat, k: int, s: Suspect)
    requires k >= 1 && AllAt(active, level) && s in Found(c, active, level, k)
    ensures s == SuspectFor(c, s.ref.position) && IsSuspect(c, s.ref.position) && s.ref.tree == c.tree
    decreases level, |active|
  {
    hide Rounds, Round, Found, FrontierOf, NextOf, SuspectsOf, IsSuspect;
    if active == [] {
      SearchOver(c, level, k);
    } else {
      var target := TargetLevel(level, k);
      var frontier := SortedPositions(FrontierOf(c.left, c.right, active, target));
      SearchStep(c, active, level, k);
      InSuspects(c, frontier, s);
      if s !in SuspectsOf(c, frontier) { FoundIs(c, NextOf(c, frontier), target, k, s); }
    }
  }

  /** A suspect with an address, and the two proofs' hashes for that requested leaf, which differ. */
  ghost predicate AccusesLeaf(auditor: Inputs, reference: Inputs, s: Suspect) {
    && s.address.Some?
    && var a := s.address.value;
       && s.ref == LeafRef(a) && SegmentOf(a) in auditor.plans && SegmentOf(a) in reference.plans
       && a in auditor.leaves && a in reference.leaves
       && s.auditorHash == auditor.leaves[a] && s.referenceHash == reference.leaves[a]
       && s.auditorHash != s.referenceHash
  }

  lemma LeafAccused(auditor: Evidence, reference: Evidence, addresses: seq<PhysicalAddress>, k: int, s: Suspect)
    requires k >= 1 && Accepted(auditor) && Accepted(reference)
    requires forall a :: a in addresses ==> a in auditor.inputs.leaves && a in reference.inputs.leaves
    requires s in AnalysisOf(auditor, reference, addresses, k).suspects && s.classification == LeafMismatch
    ensures AccusesLeaf(auditor.inputs, reference.inputs, s) && s.address.value in addresses
  {
    hide AnalysisOf, Accepted, Found, ContextOf, AccusesLeaf, IsSuspect, Height;
    InAnalysis(auditor, reference, addresses, k, s);
    var t := s.ref.tree;
    var height := TreeHeightOf(ShapeCount(auditor.inputs, t));
    StartsAt(height);
    var c := ContextOf(auditor, reference, addresses, t);
    FoundIs(c, [Position(height, 0)], height, k, s);
    AddressOf(auditor, reference, addresses, s);
    LeafHashes(auditor, reference, addresses, s, s.address.value);
  }

  lemma AddressOf(auditor: Evidence, reference: Evidence, addresses: seq<PhysicalAddress>, s: Suspect)
    requires s == SuspectFor(ContextOf(auditor, reference, addresses, s.ref.tree), s.ref.position)
    requires s.classification == LeafMismatch
    ensures s.address.Some? && s.address.value in addresses && s.ref == LeafRef(s.address.value)
  {}

  lemma LeafHashes(auditor: Evidence, reference: Evidence, addresses: seq<PhysicalAddress>, s: Suspect,
                   a: PhysicalAddress)
    requires Accepted(auditor) && Accepted(reference) && a in auditor.inputs.leaves && a in reference.inputs.leaves
    requires s.ref == LeafRef(a) && s.address == Some(a)
    requires SegmentOf(a) in auditor.inputs.plans && SegmentOf(a) in reference.inputs.plans
    requires var c := ContextOf(auditor, reference, addresses, s.ref.tree);
      s == SuspectFor(c, s.ref.position) && IsSuspect(c, s.ref.position)
    ensures AccusesLeaf(auditor.inputs, reference.inputs, s)
  {
    hide Accepted, TreeTrace, CanDescend, ChildMismatch;
    LeafTraced(auditor, a);
    LeafTraced(reference, a);
  }

  /** The trace of an accepted proof holds the requested leaves of planned segments. */
  lemma LeafTraced(e: Evidence, a: PhysicalAddress)
    requires Accepted(e) && a in e.inputs.leaves && SegmentOf(a) in e.inputs.plans
    ensures LeafRef(a) in e.trace.nodes && e.trace.nodes[LeafRef(a)] == e.inputs.leaves[a]
  {
    hide Static, TargetsGiven, IsTraceOf, TreeTrace, KnownLeaves;
    var ref := LeafRef(a);
    assert LeafAt(ref) == a;
    TracedTree(e, ref.tree);
    SuppliedEnd(e, ref);
    assert ref.position in NodesOf(e.trace.nodes, ref.tree);
  }

  /** The transcript's accusations: against every forest with the anchored root, an accused leaf is one for which the
      failed proof carries another hash than the forest holds, and both hashes are in the report; or the hash collides.
      And there is always an accusation. */
  lemma TranscriptAccuses(f: Forest, contents: Contents, proof: LocalizationProof, expected: seq<PhysicalAddress>,
                          s: Suspect)
    requires Stored(f, contents) && Transcript(proof, expected, ForestRoot(f))
    requires s in proof.analysis.suspects && s.classification == LeafMismatch
    ensures s.address.Some? && s.address.value in proof.addresses
    ensures Collide(RunPreimages(InputsOf(proof.referenceProof)), ForestPreimages(f, contents))
         || LeafOfForest(f, contents, InputsOf(proof.failedProof), s)
  {
    hide Stored, ForestRoot, Acceptable, InputsOf, IsTraceOf, AnalysisOf, Normalized, Sound, Collide, RunPreimages,
      ForestPreimages, GlobalRootOf, AccusesLeaf, LeafOfForest;
    var a, b :| IsTraceOf(InputsOf(proof.failedProof), a) && IsTraceOf(InputsOf(proof.referenceProof), b)
                && IsAnalysis(proof.failedProof, proof.referenceProof, a, b, proof.addresses, proof.analysis);
    var auditor, reference := Evidence(InputsOf(proof.failedProof), a), Evidence(InputsOf(proof.referenceProof), b);
    BothAccepted(proof.failedProof, proof.referenceProof, proof.addresses, auditor, reference);
    LeavesRequestedAre(proof.failedProof, proof.addresses);
    LeavesRequestedAre(proof.referenceProof, proof.addresses);
    LeafAccused(auditor, reference, proof.addresses, DEFAULT_JUMP_LEVELS, s);
    ProofsAreSound(f, contents, proof.referenceProof, proof.addresses);
    if Sound(f, contents, reference.inputs) { ReferenceLeaf(f, contents, auditor.inputs, reference.inputs, s); }
    AddressGiven(auditor.inputs, reference.inputs, s);
  }

  lemma AddressGiven(auditor: Inputs, reference: Inputs, s: Suspect)
    requires AccusesLeaf(auditor, reference, s)
    ensures s.address.Some?
  {}

  /** The accused leaf is in the forest with the reference's hash, and the failed proof carries another. */
  ghost predicate LeafOfForest(f: Forest, contents: Contents, failed: Inputs, s: Suspect)
    requires Stored(f, contents)
  {
    && s.address.Some?
    && var a := s.address.value;
       && HasTree(f, SegmentOf(a)) && 0 <= a.leafID < |LeavesOf(f, contents, SegmentOf(a))| && a in failed.leaves
       && s.referenceHash == LeavesOf(f, contents, SegmentOf(a))[a.leafID]
       && s.auditorHash == failed.leaves[a] != LeavesOf(f, contents, SegmentOf(a))[a.leafID]
  }

  lemma ReferenceLeaf(f: Forest, contents: Contents, auditor: Inputs, reference: Inputs, s: Suspect)
    requires Stored(f, contents) && Sound(f, contents, reference) && AccusesLeaf(auditor, reference, s)
    ensures LeafOfForest(f, contents, auditor, s)
  {
    hide Stored, Sound, LeavesOf, HasTree;
    CoveredLeafIsStored(f, contents, reference, s.address.value);
  }

  lemma AlwaysAccuses(proof: LocalizationProof, expected: seq<PhysicalAddress>, trustedRoot: Digest)
    requires Transcript(proof, expected, trustedRoot)
    ensures proof.analysis.suspects != [] && proof.k == 63
    ensures proof.anchoredGlobalRoot == trustedRoot && proof.referenceGlobalRoot == trustedRoot
    ensures proof.auditorGlobalRoot != trustedRoot
    ensures proof.addresses != [] && (forall a :: a in proof.addresses <==> a in expected)
  {
    hide Acceptable, InputsOf, AnalysisOf, Normalized, GlobalRootOf, Evaluated;
    var a, b :| IsTraceOf(InputsOf(proof.failedProof), a) && IsTraceOf(InputsOf(proof.referenceProof), b)
                && IsAnalysis(proof.failedProof, proof.referenceProof, a, b, proof.addresses, proof.analysis);
    var auditor, reference := Evidence(InputsOf(proof.failedProof), a), Evidence(InputsOf(proof.referenceProof), b);
    BothAccepted(proof.failedProof, proof.referenceProof, proof.addresses, auditor, reference);
    NeverEmpty(auditor, reference, proof.addresses, DEFAULT_JUMP_LEVELS);
    NormalElements(expected);
    assert expected[0] in expected;
  }
}
