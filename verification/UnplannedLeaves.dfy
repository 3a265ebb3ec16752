/** Requested leaves whose segment a proof does not plan (internal/hpp/verifier.go:26-145 accepts them;
    internal/hpp/planner.go:23-52 plans every segment). */
module UnplannedLeaves {
  import opened Hashing
  import opened ProofTypes
  import opened TreeFold
  import opened ProofInputs
  import opened Verifier
  import opened ProofSoundness
  import opened ReferenceProofs

  /** The proof with a leaf of an unplanned segment added, and its address requested. */
  function WithAddedLeaf(proof: HMFProof, addresses: seq<PhysicalAddress>, leaf: RequestedLeaf): HMFProof
    requires Normalized(addresses).Ok?
  {
    proof.(plan := proof.plan.(addresses := Normalized(addresses).value), leaves := proof.leaves + [leaf])
  }

  /** The check that every segment is planned is missing: to any accepted proof a leaf of a segment it does not plan can
      be added, with any hash, and the proof is accepted for the longer list of addresses with the same root. */
  lemma UnplannedLeafIsAccepted(proof: HMFProof, addresses: seq<PhysicalAddress>, a: PhysicalAddress, hash: Digest)
    requires Acceptable(proof, addresses) && ValidAddress(a) && a !in addresses
    requires SegmentOf(a) !in InputsOf(proof).plans
    ensures Normalized(addresses + [a]).Ok?
    ensures VerifiedRoot(WithAddedLeaf(proof, addresses + [a], RequestedLeaf(a, hash)), addresses + [a])
      == VerifiedRoot(proof, addresses)
  {
    hide InputsOf, ToMap, RawRootOf, PlansValid, NodesPlanned, LinksValid, AllLinked, KnownLeaves, SortAddresses;
    var longer, leaf := addresses + [a], RequestedLeaf(a, hash);
    LongerNormalized(addresses, a);
    var proof' := WithAddedLeaf(proof, longer, leaf);
    LeafAdded(proof, addresses, leaf);
    var inp, inp' := InputsOf(proof), InputsOf(proof');
    forall t | t in inp.plans
      ensures GivenTargets(inp', t) == GivenTargets(inp, t) && RawRootOf(inp', t) == RawRootOf(inp, t) {
      SameRoots(inp, inp', a, t);
    }
    forall t | t in inp'.plans ensures TargetsGiven(inp', t) { assert TargetsGiven(inp, t); }
  }

  lemma LongerNormalized(addresses: seq<PhysicalAddress>, a: PhysicalAddress)
    requires Normalized(addresses).Ok? && ValidAddress(a) && a !in addresses
    ensures Normalized(addresses + [a]).Ok? && |Normalized(addresses + [a]).value| == |Normalized(addresses).value| + 1
    ensures a !in Normalized(addresses).value
    ensures forall b :: b in Normalized(addresses + [a]).value <==> b in Normalized(addresses).value || b == a
  {
    var longer := addresses + [a];
    forall i | 0 <= i < |longer| ensures ValidAddress(longer[i]) {
      if i < |addresses| { assert longer[i] == addresses[i]; }
    }
    assert (set b | b in longer) == (set b | b in addresses) + {a};
  }

  lemma LeafAdded(proof: HMFProof, addresses: seq<PhysicalAddress>, leaf: RequestedLeaf)
    requires Acceptable(proof, addresses) && ValidAddress(leaf.address) && leaf.address !in addresses
    requires Normalized(addresses + [leaf.address]).Ok?
    ensures var proof' := WithAddedLeaf(proof, addresses + [leaf.address], leaf);
      && ListedOnce(proof') && LeavesRequested(proof', addresses + [leaf.address])
      && var inp, inp', a := InputsOf(proof), InputsOf(proof'), leaf.address;
         inp'.plans == inp.plans && inp'.nodes == inp.nodes && inp'.children == inp.children
         && forall b :: b != a ==>
           (b in inp'.leaves <==> b in inp.leaves) && (b in inp.leaves ==> inp'.leaves[b] == inp.leaves[b])
  {
    hide ValidInputs, SortAddresses, Normalized, ToMap, Distinct;
    var a := leaf.address;
    LongerNormalized(addresses, a);
    var proof' := WithAddedLeaf(proof, addresses + [a], leaf);
    var before, after := AddressesOf(proof.leaves), AddressesOf(proof'.leaves);
    assert after == before + [a];
    RequestedOnly(proof, addresses);
    assert a !in before;
    MapLonger(before, LeafHashesOf(proof.leaves), a, leaf.hash);
    assert LeafHashesOf(proof'.leaves) == LeafHashesOf(proof.leaves) + [leaf.hash];
  }

  /** One more entry adds one to the map. */
  lemma MapLonger(keys: seq<PhysicalAddress>, values: seq<Digest>, a: PhysicalAddress, value: Digest)
    requires Distinct(keys) && |keys| == |values| && a !in keys
    ensures Distinct(keys + [a])
    ensures var m, m' := ToMap(keys, values), ToMap(keys + [a], values + [value]);
      forall b :: b != a ==> (b in m' <==> b in m) && (b in m ==> m'[b] == m[b])
  {
    var m, m' := ToMap(keys, values), ToMap(keys + [a], values + [value]);
    forall b | b in keys ensures b in m' && b in m && m'[b] == m[b] {
      var i :| 0 <= i < |keys| && keys[i] == b;
      assert (keys + [a])[i] == b && (values + [value])[i] == values[i];
    }
  }

  /** As many distinct leaves as addresses: no leaf beyond those requested. */
  lemma RequestedOnly(proof: HMFProof, addresses: seq<PhysicalAddress>)
    requires ListedOnce(proof) && LeavesRequested(proof, addresses)
    ensures forall b :: b in AddressesOf(proof.leaves) ==> b in addresses
  {
    var given, all := AddressesOf(proof.leaves), set b | b in addresses;
    DistinctSize(given);
    SubsetOfSameSize(all, set b | b in given);
    assert forall b :: b in given ==> b in all;
  }
}
