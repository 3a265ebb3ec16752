/** Reference proofs at any point of any run (internal/hpp/proof.go). */
module RunProofs {
  import opened Hashing
  import opened Forests
  import opened ForestTrees
  import opened HierarchicalForest
  import opened ProofTypes
  import opened ProofInputs
  import opened ProofSoundness
  import opened ProofBuilding
  import opened StoredForest
  import opened Persistence
  import opened ReferenceProofs

  /** No run gives two segments of a shard the same identifier. */
  lemma {:induction false} RunsDistinct(run: seq<System>, i: nat)
    requires IsRun(run) && i < |run|
    ensures DistinctSegments(run[i].forest)
    decreases i
  {
    hide Init, AppendStep;
    if i == 0 {
      StartsDistinct(run[0]);
    } else {
      RunsDistinct(run, i - 1);
      var key, segmentID, leaves, u :| AppendStep(run[i - 1], run[i - 1 + 1], key, segmentID, leaves, u);
      StepDistinct(run[i - 1], run[i], key, segmentID, leaves, u);
    }
  }

  lemma StartsDistinct(s: System)
    requires Init(s)
    ensures DistinctSegments(s.forest)
  {}

  lemma StepDistinct(s: System, s': System, key: ShardKey, segmentID: int, leaves: seq<Digest>, u: HMFUpdate)
    requires AppendStep(s, s', key, segmentID, leaves, u) && DistinctSegments(s.forest)
    ensures DistinctSegments(s'.forest)
  {
    hide Reports, Persist, Merkle.Root, NodeStore.NodesBelow;
    forall k | k in s'.forest.segments ensures DistinctIDs(s'.forest.segments[k]) {
      assert DistinctIDs(s.forest.segments[k]);
    }
  }

  /** A rebuilt reference accepted against the forest's root is the one built in full, node by node, or the hash
      collides. */
  ghost predicate FastIsFull(f: Forest, contents: Contents, storage: Storage, proof: HMFProof,
                             addresses: seq<PhysicalAddress>)
    requires Stored(f, contents)
  {
    Rebuildable(storage, proof, addresses, ForestRoot(f)) ==>
      || Collide(RunPreimages(InputsOf(Rebuilt(storage, proof))), ForestPreimages(f, contents))
      || (Verifiable(storage, addresses, ForestRoot(f)) && SameAsFull(storage, proof, addresses))
  }

  /** So it is at any point of any run. */
  lemma RunsRefineReferences(run: seq<System>, i: nat, proof: HMFProof, addresses: seq<PhysicalAddress>)
    requires IsRun(run) && i < |run|
    ensures Inv(run[i]) && FastIsFull(run[i].forest, run[i].contents, run[i].storage, proof, addresses)
  {
    hide IsRun, Faithful, Complete, WellFormed, Backed, Rebuildable, Verifiable, Collide, DistinctSegments, InputsOf,
      Rebuilt, ProofOf, ForestRoot;
    RunsHold(run, i);
    RunsDistinct(run, i);
    var s := run[i];
    if Rebuildable(s.storage, proof, addresses, ForestRoot(s.forest)) {
      FastRefinesFull(s.forest, s.contents, s.storage, proof, addresses);
    }
  }
}
