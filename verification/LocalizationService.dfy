/** Localizing a failed audit and verifying the transcript (internal/localization/service.go). */
module LocalizationService {
  import opened Hashing
  import opened Merkle
  import opened ProofTypes
  import opened Forests
  import opened ForestTrees
  import opened ProofInputs
  import opened Planner
  import opened NodeRows
  import opened ProofBuilding
  import opened Verifier
  import opened ProofSoundness
  import opened StoredForest
  import opened ServedProofs
  import opened ReferenceProofs
  import opened Localization
  import opened LocalizationProofs
  import opened LocalizationExact

  /** No tree is taller than 63 levels: node indexes are int64. */
  const DEFAULT_JUMP_LEVELS := 63

  datatype Request = Request(
    addresses: seq<PhysicalAddress>, auditorGlobalRoot: Digest, failedProof: HMFProof, anchoredGlobalRoot: Digest,
    k: int)

  datatype LocalizationProof = LocalizationProof(
    anchoredGlobalRoot: Digest, auditorGlobalRoot: Digest, referenceGlobalRoot: Digest, k: int,
    addresses: seq<PhysicalAddress>,
    failedProof: HMFProof, referenceProof: HMFProof, analysis: Analysis)

  /** The recorded trace of an accepted proof is unique. */
  lemma TraceUnique(inp: Inputs, a: ProofTrace, b: ProofTrace)
    requires IsTraceOf(inp, a) && IsTraceOf(inp, b)
    ensures a == b
  {
    hide TreeTrace, RawRootOf, CommittedRoot;
    forall t | t in inp.plans ensures a.rawRoots[t] == b.rawRoots[t] && a.committedRoots[t] == b.committedRoots[t] {
      assert TreeEvaluated(inp, t, a.rawRoots[t], a.committedRoots[t]);
      assert TreeEvaluated(inp, t, b.rawRoots[t], b.committedRoots[t]);
    }
    assert a.rawRoots == b.rawRoots && a.committedRoots == b.committedRoots;
    assert a.nodes == b.nodes;
  }

  /** The replay of the analysis on two proofs. */
  ghost predicate Replayed(failed: HMFProof, reference: HMFProof, addresses: seq<PhysicalAddress>, analysis: Analysis) {
    exists a, b :: IsTraceOf(InputsOf(failed), a) && IsTraceOf(InputsOf(reference), b)
      && IsAnalysis(failed, reference, a, b, addresses, analysis)
  }

  ghost predicate IsAnalysis(failed: HMFProof, reference: HMFProof, a: ProofTrace, b: ProofTrace,
                             addresses: seq<PhysicalAddress>, analysis: Analysis) {
    analysis == AnalysisOf(Evidence(InputsOf(failed), a), Evidence(InputsOf(reference), b), addresses,
                           DEFAULT_JUMP_LEVELS)
  }

  /** A transcript an auditor accepts: both proofs verify for the addresses, the failed one with
      the reported root and the reference with the trusted one, and the analysis is the replay. */
  ghost predicate Transcript(proof: LocalizationProof, expected: seq<PhysicalAddress>, trustedRoot: Digest) {
    && expected != [] && Normalized(expected) == Ok(proof.addresses) && proof.k == DEFAULT_JUMP_LEVELS
    && proof.anchoredGlobalRoot == proof.referenceGlobalRoot == trustedRoot && proof.auditorGlobalRoot != trustedRoot
    && VerifiedRoot(proof.failedProof, proof.addresses) == Ok(proof.auditorGlobalRoot)
    && VerifiedRoot(proof.referenceProof, proof.addresses) == Ok(trustedRoot)
    && Replayed(proof.failedProof, proof.referenceProof, proof.addresses, proof.analysis)
  }

  method VerifyProof(proof: LocalizationProof, expected: seq<PhysicalAddress>, trustedRoot: Digest) returns (ok: bool)
    ensures ok <==> Transcript(proof, expected, trustedRoot)
  {
    hide Acceptable, IsTraceOf, InputsOf, AnalysisOf, Normalized, GlobalRootOf;
    if expected == [] { return false; }
    var addresses := NormalizeAddresses(expected);
    if addresses.Err? { return false; }
    if proof.k != DEFAULT_JUMP_LEVELS || addresses.value != proof.addresses { return false; }
    if proof.anchoredGlobalRoot != trustedRoot || proof.referenceGlobalRoot != trustedRoot { return false; }
    var auditor := EvaluateHMFProof(proof.failedProof, proof.addresses);
    if auditor.Err? { return false; }
    RootTraced(proof.failedProof, proof.addresses, auditor.value);
    if auditor.value.globalRoot != proof.auditorGlobalRoot || proof.auditorGlobalRoot == trustedRoot { return false; }
    var reference := EvaluateHMFProof(proof.referenceProof, proof.addresses);
    if reference.Err? { return false; }
    RootTraced(proof.referenceProof, proof.addresses, reference.value);
    if reference.value.globalRoot != trustedRoot { return false; }
    var analysis := Analyze(Evidence(InputsOf(proof.failedProof), auditor.value),
                            Evidence(InputsOf(proof.referenceProof), reference.value),
                            proof.addresses, DEFAULT_JUMP_LEVELS);
    ReplayIs(proof.failedProof, proof.referenceProof, auditor.value, reference.value, proof.addresses, proof.analysis);
    return analysis == proof.analysis;
  }

  lemma RootTraced(proof: HMFProof, addresses: seq<PhysicalAddress>, trace: ProofTrace)
    requires Acceptable(proof, addresses) && IsTraceOf(InputsOf(proof), trace)
    ensures VerifiedRoot(proof, addresses) == Ok(trace.globalRoot)
  {
    hide Acceptable, Evaluated, GlobalRootOf, InputsOf;
  }

  lemma ReplayIs(failed: HMFProof, reference: HMFProof, a: ProofTrace, b: ProofTrace, addresses: seq<PhysicalAddress>,
                 analysis: Analysis)
    requires IsTraceOf(InputsOf(failed), a) && IsTraceOf(InputsOf(reference), b)
    ensures Replayed(failed, reference, addresses, analysis) <==>
      IsAnalysis(failed, reference, a, b, addresses, analysis)
  {
    hide IsTraceOf, InputsOf, IsAnalysis;
    if Replayed(failed, reference, addresses, analysis) {
      var a', b' :| IsTraceOf(InputsOf(failed), a') && IsTraceOf(InputsOf(reference), b')
                    && IsAnalysis(failed, reference, a', b', addresses, analysis);
      TraceUnique(InputsOf(failed), a, a');
      TraceUnique(InputsOf(reference), b, b');
    }
  }

  /** First rebuilds the reference around the failed proof's nodes, then falls back to a full build. */
  method AuthenticatedReference(storage: Storage, rows: Rows, failed: HMFProof, addresses: seq<PhysicalAddress>,
                                trustedRoot: Digest)
    returns (r: Result<(HMFProof, ProofTrace)>)
    requires RowsFor(rows, storage.nodes)
    ensures r.Ok? <==>
      Rebuildable(storage, failed, addresses, trustedRoot) || Verifiable(storage, addresses, trustedRoot)
    ensures r.Ok? ==> VerifiedRoot(r.value.0, addresses) == Ok(trustedRoot) && IsTraceOf(InputsOf(r.value.0), r.value.1)
    ensures r.Ok? && Rebuildable(storage, failed, addresses, trustedRoot) ==> r.value.0 == Rebuilt(storage, failed)
  {
    hide Acceptable, IsTraceOf, InputsOf, Normalized, SegmentTargets, IsStored, Plannable, AllStored, ProofOf, RowsFor;
    var rebuilt := ReferenceFromProof(storage, rows, failed, addresses, trustedRoot);
    if rebuilt.Ok? { return rebuilt; }
    var built :- BuildAndVerify(storage, rows, addresses, trustedRoot);
    var trace := EvaluateHMFProof(built, addresses);  // cannot fail: the proof was just verified
    return Ok((built, trace.value));
  }

  /** What a localization request needs to succeed. */
  ghost predicate Localizable(storage: Storage, request: Request) {
    && request.addresses != [] && Normalized(request.addresses).Ok?
    && (request.k == 0 || request.k == DEFAULT_JUMP_LEVELS)
    && request.auditorGlobalRoot != request.anchoredGlobalRoot
    && var addresses := Normalized(request.addresses).value;
      && VerifiedRoot(request.failedProof, addresses) == Ok(request.auditorGlobalRoot)
      && (Rebuildable(storage, request.failedProof, addresses, request.anchoredGlobalRoot)
          || Verifiable(storage, addresses, request.anchoredGlobalRoot))
  }

  /** Localizes a failed audit. Whatever it returns, VerifyProof accepts, and it names a suspect. */
  method Localize(storage: Storage, rows: Rows, request: Request) returns (r: Result<LocalizationProof>)
    requires RowsFor(rows, storage.nodes)
    ensures r.Ok? <==> Localizable(storage, request)
    ensures r.Ok? ==>
      Transcript(r.value, request.addresses, request.anchoredGlobalRoot) && r.value.analysis.suspects != []
    ensures r.Ok? ==>
      r.value.failedProof == request.failedProof && r.value.auditorGlobalRoot == request.auditorGlobalRoot
    ensures r.Ok? && Rebuildable(storage, request.failedProof, r.value.addresses, request.anchoredGlobalRoot) ==>
      r.value.referenceProof == Rebuilt(storage, request.failedProof)
  {
    hide Acceptable, IsTraceOf, InputsOf, Normalized, Rebuildable, Verifiable, AnalysisOf, GlobalRootOf, RowsFor;
    if request.addresses == [] { return Err; }
    var addresses :- NormalizeAddresses(request.addresses);
    if request.k != 0 && request.k != DEFAULT_JUMP_LEVELS { return Err; }
    var auditor :- EvaluateHMFProof(request.failedProof, addresses);
    RootTraced(request.failedProof, addresses, auditor);
    if auditor.globalRoot != request.auditorGlobalRoot { return Err; }
    if request.auditorGlobalRoot == request.anchoredGlobalRoot { return Err; }
    var reference :- AuthenticatedReference(storage, rows, request.failedProof, addresses, request.anchoredGlobalRoot);
    RootTraced(reference.0, addresses, reference.1);
    var a, b := Evidence(InputsOf(request.failedProof), auditor), Evidence(InputsOf(reference.0), reference.1);
    var analysis := Analyze(a, b, addresses, DEFAULT_JUMP_LEVELS);
    ReplayIs(request.failedProof, reference.0, auditor, reference.1, addresses, analysis);
    BothAccepted(request.failedProof, reference.0, addresses, a, b);
    NeverEmpty(a, b, addresses, DEFAULT_JUMP_LEVELS);
    return Ok(LocalizationProof(request.anchoredGlobalRoot, request.auditorGlobalRoot, reference.1.globalRoot,
                                DEFAULT_JUMP_LEVELS,
                                addresses, request.failedProof, reference.0, analysis));
  }

  lemma BothAccepted(failed: HMFProof, reference: HMFProof, addresses: seq<PhysicalAddress>, a: Evidence, b: Evidence)
    requires Acceptable(failed, addresses) && Acceptable(reference, addresses)
    requires a.inputs == InputsOf(failed) && b.inputs == InputsOf(reference) && IsTraceOf(a.inputs, a.trace)
    requires IsTraceOf(b.inputs, b.trace)
    ensures Accepted(a) && Accepted(b)
  {
    hide IsTraceOf, InputsOf, ValidInputs;
  }

  /** Over storage that holds the forest, every accepted proof with a wrong root is localized. */
  lemma AlwaysLocalizes(f: Forest, contents: Contents, storage: Storage, request: Request)
    requires Holds(f, contents, storage) && request.anchoredGlobalRoot == ForestRoot(f)
    requires (request.k == 0 || request.k == DEFAULT_JUMP_LEVELS)
    requires request.addresses != [] && AllSealed(f, contents, request.addresses)
    requires request.auditorGlobalRoot != request.anchoredGlobalRoot
    requires Normalized(request.addresses).Ok? ==>
      VerifiedRoot(request.failedProof, Normalized(request.addresses).value) == Ok(request.auditorGlobalRoot)
    ensures Localizable(storage, request)
  {
    hide WellFormed, Backed, Faithful, Complete, Normalized, Sealed, ForestRoot, Plannable, AllStored, ProofOf,
      VerifiedRoot, Rebuildable;
    SealedNormal(f, contents, request.addresses);
    NormalizeTwice(request.addresses);
    var addresses := Normalized(request.addresses).value;
    NormalElements(request.addresses);
    EndToEnd(f, contents, storage, addresses);
  }

  /** The hash that a proof carries for a requested leaf differs from the stored one. */
  predicate LeafChanged(storage: Storage, failed: HMFProof, a: PhysicalAddress) {
    a in InputsOf(failed).leaves && IsStored(storage, LeafRef(a))
    && InputsOf(failed).leaves[a] != StoredHash(storage, LeafRef(a))
  }

  /** When only requested leaves were changed, localization reports exactly the changed ones, each
      with its address; or the hash collides. */
  lemma ChangedLeavesFound(storage: Storage, failed: HMFProof, a: ProofTrace, b: ProofTrace,
                           addresses: seq<PhysicalAddress>, trustedRoot: Digest, k: int)
    requires k >= 1 && Normalized(addresses) == Ok(addresses) && Acceptable(failed, addresses)
    requires Rebuildable(storage, failed, addresses, trustedRoot)
    requires IsTraceOf(InputsOf(failed), a) && IsTraceOf(InputsOf(Rebuilt(storage, failed)), b)
    ensures
      || Collide(RunPreimages(InputsOf(failed)), RunPreimages(InputsOf(Rebuilt(storage, failed))))
      || (var suspects := AnalysisOf(Evidence(InputsOf(failed), a), Evidence(InputsOf(Rebuilt(storage, failed)), b),
                                     addresses, k).suspects;
          && (forall l :: LeafChanged(storage, failed, l) <==> Accused(suspects, l))
          && (forall s :: s in suspects ==> s.classification == LeafMismatch && s.address.Some?)
          && InOrder(suspects))
  {
    hide IsTraceOf, InputsOf, Normalized, AnalysisOf, RunPreimages, Collide, Rebuilt, PlansValid, NodesPlanned,
      LinksValid, AllLinked, TargetsGiven, ListedOnce, LeavesRequested, IsStored, LeafRef, IsExpected, SegmentTargets,
      LeafRefs, GlobalRootOf, InOrder;
    var rebuilt := Rebuilt(storage, failed);
    var auditor, reference := Evidence(InputsOf(failed), a), Evidence(InputsOf(rebuilt), b);
    RebuiltAcceptable(storage, failed, addresses, trustedRoot);
    BothAccepted(failed, rebuilt, addresses, auditor, reference);
    RebuiltSamePlan(storage, failed, addresses, trustedRoot);
    LeavesRequestedAre(failed, addresses);
    Exact(auditor, reference, addresses, k);
    if !Collide(RunPreimages(auditor.inputs), RunPreimages(reference.inputs)) {
      var suspects := AnalysisOf(auditor, reference, addresses, k).suspects;
      RebuiltCovers(storage, failed, addresses, trustedRoot);
      forall s | s in suspects
        ensures s.classification == LeafMismatch && s.address.Some? && LeafChanged(storage, failed, s.address.value) {
        SuspectIsLeaf(storage, failed, addresses, trustedRoot, s);
      }
      forall l | LeafChanged(storage, failed, l) ensures Accused(suspects, l) {
        var s := ChangedSuspect(storage, failed, addresses, trustedRoot, l);
      }
    }
  }

  ghost predicate Accused(suspects: seq<Suspect>, l: PhysicalAddress) {
    exists s :: s in suspects && s.address == Some(l)
  }

  lemma RebuiltAcceptable(storage: Storage, failed: HMFProof, addresses: seq<PhysicalAddress>, trustedRoot: Digest)
    requires Rebuildable(storage, failed, addresses, trustedRoot)
    ensures Acceptable(Rebuilt(storage, failed), addresses)
  {
    hide Acceptable, GlobalRootOf, InputsOf, IsStored, LeafRef, SegmentTargets;
  }

  lemma RebuiltSamePlan(storage: Storage, failed: HMFProof, addresses: seq<PhysicalAddress>, trustedRoot: Digest)
    requires Rebuildable(storage, failed, addresses, trustedRoot) && Acceptable(failed, addresses)
    ensures SamePlan(InputsOf(failed), InputsOf(Rebuilt(storage, failed)))
    ensures InputsOf(Rebuilt(storage, failed)).nodes == InputsOf(failed).nodes
    ensures LeavesHeld(storage, addresses, InputsOf(Rebuilt(storage, failed)).leaves)
  {
    hide Normalized, IsStored, LeafRef, SegmentTargets, ValidInputs, Distinct;
    LeavesRequestedAre(failed, addresses);
    LeavesRequestedAre(Rebuilt(storage, failed), addresses);
    NormalizeTwice(addresses);
    LeavesServed(storage, failed.plan.addresses);
  }

  lemma SuspectIsLeaf(storage: Storage, failed: HMFProof, addresses: seq<PhysicalAddress>, trustedRoot: Digest,
                      s: Suspect)
    requires Rebuildable(storage, failed, addresses, trustedRoot) && Acceptable(failed, addresses)
    requires IsExpected(InputsOf(failed), InputsOf(Rebuilt(storage, failed)), s)
    ensures s.classification == LeafMismatch && s.address.Some? && LeafChanged(storage, failed, s.address.value)
  {
    hide Acceptable, InputsOf, IsStored, Rebuilt, SegmentTargets, LeafRefs, VerifiedRoot;
    RebuiltSamePlan(storage, failed, addresses, trustedRoot);
  }

  lemma ChangedSuspect(storage: Storage, failed: HMFProof, addresses: seq<PhysicalAddress>, trustedRoot: Digest,
                       l: PhysicalAddress)
    returns (s: Suspect)
    requires Rebuildable(storage, failed, addresses, trustedRoot) && Acceptable(failed, addresses)
    requires LeafChanged(storage, failed, l)
    ensures IsExpected(InputsOf(failed), InputsOf(Rebuilt(storage, failed)), s) && s.address == Some(l)
  {
    hide ValidInputs, ListedOnce, LeavesRequested, InputsOf, IsStored, Rebuilt, SegmentTargets, LeafRefs, VerifiedRoot;
    RebuiltSamePlan(storage, failed, addresses, trustedRoot);
    RebuiltCovers(storage, failed, addresses, trustedRoot);
    var ref := LeafRef(l);
    assert LeafAt(ref) == l;
    LeafNotNode(failed, addresses, l);
    s := ExpectedSuspect(InputsOf(failed), InputsOf(Rebuilt(storage, failed)), ref);
  }

  lemma LeafNotNode(failed: HMFProof, addresses: seq<PhysicalAddress>, l: PhysicalAddress)
    requires Acceptable(failed, addresses) && l in InputsOf(failed).leaves && SegmentOf(l) in InputsOf(failed).plans
    ensures LeafRef(l) !in InputsOf(failed).nodes
  {
    hide InputsOf, Static, TargetsGiven, KnownLeaves, TreeTrace, IsEnd;
    var inp := InputsOf(failed);
    assert LeafAt(LeafRef(l)) == l && l.leafID in GivenTargets(inp, SegmentOf(l));
    EndIs(inp, SegmentOf(l), Position(0, l.leafID));
  }
}
