/** The proof of a list of addresses is unique up to the order of its lists: what the verifier accepts against a
    forest's root is what the service builds (internal/hpp/verifier.go:26-274, internal/hpp/proof.go:24-49). */
module CanonicalProofs {
  import opened Hashing
  import opened ProofTypes
  import opened Forests
  import opened ForestTrees
  import opened ProofInputs
  import opened Planner
  import opened ProofBuilding
  import opened Verifier
  import opened ProofSoundness
  import opened StoredForest
  import opened ReferenceProofs

  /** As many elements, and the same ones. Of lists without repetition: the same up to order. */
  ghost predicate SameList<T(!new)>(a: seq<T>, b: seq<T>) {
    |a| == |b| && forall x :: x in a <==> x in b
  }

  ghost predicate SameUpToOrder(a: HMFProof, b: HMFProof) {
    && a.plan.addresses == b.plan.addresses
    && SameList(a.plan.trees, b.plan.trees) && SameList(a.plan.parentLinks, b.plan.parentLinks)
    && SameList(a.leaves, b.leaves) && SameList(a.nodes, b.nodes)
  }

  // ---- Lists and the maps they are collected in ----

  /** The keys and values determine the items. */
  ghost predicate Keyed<X(!new), K(!new), V(!new)>(items: seq<X>, keys: seq<K>, values: seq<V>, key: X -> K,
                                                     value: X -> V) {
    && |keys| == |values| == |items|
    && (forall i :: 0 <= i < |items| ==> keys[i] == key(items[i]) && values[i] == value(items[i]))
    && (forall x, y :: key(x) == key(y) && value(x) == value(y) ==> x == y)
  }

  lemma ItemIn<X(!new), K(!new), V(!new)>(a: seq<X>, keysA: seq<K>, valuesA: seq<V>, b: seq<X>, keysB: seq<K>,
                                          valuesB: seq<V>, key: X -> K, value: X -> V, x: X)
    requires Keyed(a, keysA, valuesA, key, value) && Keyed(b, keysB, valuesB, key, value)
    requires Distinct(keysA) && Distinct(keysB) && ToMap(keysA, valuesA) == ToMap(keysB, valuesB) && x in a
    ensures x in b
  {
    hide Distinct;
    var i :| 0 <= i < |a| && a[i] == x;
    assert keysA[i] in ToMap(keysA, valuesA);
    assert keysA[i] in ToMap(keysB, valuesB);
    var j :| 0 <= j < |keysB| && keysB[j] == keysA[i];
    MapAt(keysA, valuesA, i);
    MapAt(keysB, valuesB, j);
    assert b[j] == x;
  }

  lemma MapAt<K(!new), V(!new)>(keys: seq<K>, values: seq<V>, i: nat)
    requires Distinct(keys) && |keys| == |values| && i < |keys|
    ensures keys[i] in ToMap(keys, values) && ToMap(keys, values)[keys[i]] == values[i]
  {}

  lemma SameFromMaps<X(!new), K(!new), V(!new)>(a: seq<X>, keysA: seq<K>, valuesA: seq<V>, b: seq<X>, keysB: seq<K>,
                                                valuesB: seq<V>, key: X -> K, value: X -> V)
    requires Keyed(a, keysA, valuesA, key, value) && Keyed(b, keysB, valuesB, key, value)
    requires Distinct(keysA) && Distinct(keysB) && ToMap(keysA, valuesA) == ToMap(keysB, valuesB)
    ensures SameList(a, b)
  {
    hide Distinct, Keyed;
    forall x ensures x in a <==> x in b {
      if x in a { ItemIn(a, keysA, valuesA, b, keysB, valuesB, key, value, x); }
      if x in b { ItemIn(b, keysB, valuesB, a, keysA, valuesA, key, value, x); }
    }
    SameLength(a, keysA, valuesA, b, keysB, valuesB, key, value);
  }

  lemma SameLength<X(!new), K(!new), V(!new)>(a: seq<X>, keysA: seq<K>, valuesA: seq<V>, b: seq<X>, keysB: seq<K>,
                                              valuesB: seq<V>, key: X -> K, value: X -> V)
    requires Keyed(a, keysA, valuesA, key, value) && Keyed(b, keysB, valuesB, key, value)
    requires Distinct(keysA) && Distinct(keysB) && ToMap(keysA, valuesA) == ToMap(keysB, valuesB)
    ensures |a| == |b|
  {
    hide Distinct;
    DistinctSize(keysA);
    DistinctSize(keysB);
    assert forall k :: k in keysA <==> k in ToMap(keysA, valuesA);
    assert forall k :: k in keysB <==> k in ToMap(keysB, valuesB);
    assert (set k | k in keysA) == set k | k in keysB;
  }

  lemma MapsFromSame<X(!new), K(!new), V(!new)>(a: seq<X>, keysA: seq<K>, valuesA: seq<V>, b: seq<X>, keysB: seq<K>,
                                                valuesB: seq<V>, key: X -> K, value: X -> V)
    requires Keyed(a, keysA, valuesA, key, value) && Keyed(b, keysB, valuesB, key, value)
    requires SameList(a, b) && Distinct(keysB)
    ensures Distinct(keysA) && ToMap(keysA, valuesA) == ToMap(keysB, valuesB)
  {
    hide Distinct, Keyed;
    SameSizes(a, keysA, valuesA, b, keysB, valuesB, key, value);
    forall k ensures k in keysA <==> k in keysB {
      if k in keysA { KeyIn(a, keysA, valuesA, b, keysB, valuesB, key, value, k); }
      if k in keysB { KeyIn(b, keysB, valuesB, a, keysA, valuesA, key, value, k); }
    }
    assert (set k | k in keysA) == set k | k in keysB;
    DistinctSize(keysB);
    FullSize(keysA);
    var m, m' := ToMap(keysA, valuesA), ToMap(keysB, valuesB);
    forall k | k in m ensures m[k] == m'[k] { ValueIn(a, keysA, valuesA, b, keysB, valuesB, key, value, k); }
  }

  lemma SameSizes<X(!new), K(!new), V(!new)>(a: seq<X>, keysA: seq<K>, valuesA: seq<V>, b: seq<X>, keysB: seq<K>,
                                             valuesB: seq<V>, key: X -> K, value: X -> V)
    requires Keyed(a, keysA, valuesA, key, value) && Keyed(b, keysB, valuesB, key, value) && SameList(a, b)
    ensures |keysA| == |keysB| == |valuesA| == |valuesB|
  {}

  lemma KeyIn<X(!new), K(!new), V(!new)>(a: seq<X>, keysA: seq<K>, valuesA: seq<V>, b: seq<X>, keysB: seq<K>,
                                         valuesB: seq<V>, key: X -> K, value: X -> V, k: K)
    requires Keyed(a, keysA, valuesA, key, value) && Keyed(b, keysB, valuesB, key, value) && SameList(a, b)
    requires k in keysA
    ensures k in keysB
  {
    var i :| 0 <= i < |keysA| && keysA[i] == k;
    assert a[i] in b;
    var j :| 0 <= j < |b| && b[j] == a[i];
    assert keysB[j] == k;
  }

  lemma ValueIn<X(!new), K(!new), V(!new)>(a: seq<X>, keysA: seq<K>, valuesA: seq<V>, b: seq<X>, keysB: seq<K>,
                                           valuesB: seq<V>, key: X -> K, value: X -> V, k: K)
    requires Keyed(a, keysA, valuesA, key, value) && Keyed(b, keysB, valuesB, key, value) && SameList(a, b)
    requires Distinct(keysA) && Distinct(keysB) && k in keysA
    ensures k in keysB && ToMap(keysA, valuesA)[k] == ToMap(keysB, valuesB)[k]
  {
    hide Distinct;
    var i :| 0 <= i < |keysA| && keysA[i] == k;
    assert a[i] in b;
    var j :| 0 <= j < |b| && b[j] == a[i];
    assert keysB[j] == k;
    MapAt(keysA, valuesA, i);
    MapAt(keysB, valuesB, j);
  }

  lemma {:induction false} SizeAtMost<T(!new)>(s: seq<T>)
    ensures |(set x | x in s)| <= |s|
    decreases |s|
  {
    if s != [] {
      var rest, last := s[..|s| - 1], s[|s| - 1];
      SizeAtMost(rest);
      assert (set x | x in s) == (set x | x in rest) + {last};
    }
  }

  /** A list with as many elements as its set repeats none. */
  lemma {:induction false} FullSize<T(!new)>(s: seq<T>)
    requires |(set x | x in s)| == |s|
    ensures Distinct(s)
    decreases |s|
  {
    if s != [] {
      var rest, last := s[..|s| - 1], s[|s| - 1];
      SizeAtMost(rest);
      assert (set x | x in s) == (set x | x in rest) + {last};
      assert last in rest ==> (set x | x in s) == set x | x in rest;
      FullSize(rest);
    }
  }

  // ---- The lists of a proof ----

  function PlanKey(x: TreePlan): TreeRef { x.tree }

  function PlanItself(x: TreePlan): TreePlan { x }

  function NodeKey(x: ProofNode): NodeRef { x.ref }

  function NodeHash(x: ProofNode): Digest { x.hash }

  function LeafKey(x: RequestedLeaf): PhysicalAddress { x.address }

  function LeafHash(x: RequestedLeaf): Digest { x.hash }

  function LinkKey(x: ParentLink): Slot { Slot(x.parent, x.parentLeafIndex) }

  function LinkChild(x: ParentLink): TreeRef { x.child }

  lemma TreesKeyed(proof: HMFProof)
    ensures Keyed(proof.plan.trees, TreesOf(proof.plan.trees), proof.plan.trees, PlanKey, PlanItself)
  {}

  lemma NodesKeyed(proof: HMFProof)
    ensures Keyed(proof.nodes, RefsOf(proof.nodes), NodeHashesOf(proof.nodes), NodeKey, NodeHash)
  {}

  lemma LeavesKeyed(proof: HMFProof)
    ensures Keyed(proof.leaves, AddressesOf(proof.leaves), LeafHashesOf(proof.leaves),
                  LeafKey, LeafHash)
  {}

  lemma LinksKeyed(proof: HMFProof)
    ensures Keyed(proof.plan.parentLinks, SlotsOf(proof.plan.parentLinks), ChildrenOf(proof.plan.parentLinks),
                  LinkKey, LinkChild)
  {}

  /** Proofs with the same inputs that list nothing twice are the same up to order. */
  lemma SameInputs(a: HMFProof, b: HMFProof)
    requires ListedOnce(a) && ListedOnce(b) && InputsOf(a) == InputsOf(b) && a.plan.addresses == b.plan.addresses
    ensures SameUpToOrder(a, b)
  {
    hide Keyed, Distinct, ToMap, SameList;
    TreesKeyed(a);
    TreesKeyed(b);
    SameFromMaps(a.plan.trees, TreesOf(a.plan.trees), a.plan.trees, b.plan.trees, TreesOf(b.plan.trees), b.plan.trees,
                 PlanKey, PlanItself);
    NodesKeyed(a);
    NodesKeyed(b);
    SameFromMaps(a.nodes, RefsOf(a.nodes), NodeHashesOf(a.nodes), b.nodes, RefsOf(b.nodes), NodeHashesOf(b.nodes),
                 NodeKey, NodeHash);
    LeavesKeyed(a);
    LeavesKeyed(b);
    SameFromMaps(a.leaves, AddressesOf(a.leaves), LeafHashesOf(a.leaves), b.leaves, AddressesOf(b.leaves),
                 LeafHashesOf(b.leaves), LeafKey, LeafHash);
    LinksKeyed(a);
    LinksKeyed(b);
    SameFromMaps(a.plan.parentLinks, SlotsOf(a.plan.parentLinks), ChildrenOf(a.plan.parentLinks), b.plan.parentLinks,
                 SlotsOf(b.plan.parentLinks), ChildrenOf(b.plan.parentLinks),
                 LinkKey, LinkChild);
  }

  /** A proof that is the same up to order as one that lists nothing twice has the same inputs. */
  lemma SameListed(a: HMFProof, b: HMFProof)
    requires SameUpToOrder(a, b) && ListedOnce(b) && Distinct(ChildrenOf(a.plan.parentLinks))
    ensures ListedOnce(a) && InputsOf(a) == InputsOf(b)
  {
    hide Keyed, Distinct, ToMap, SameList;
    TreesKeyed(a);
    TreesKeyed(b);
    MapsFromSame(a.plan.trees, TreesOf(a.plan.trees), a.plan.trees, b.plan.trees, TreesOf(b.plan.trees), b.plan.trees,
                 PlanKey, PlanItself);
    NodesKeyed(a);
    NodesKeyed(b);
    MapsFromSame(a.nodes, RefsOf(a.nodes), NodeHashesOf(a.nodes), b.nodes, RefsOf(b.nodes), NodeHashesOf(b.nodes),
                 NodeKey, NodeHash);
    LeavesKeyed(a);
    LeavesKeyed(b);
    MapsFromSame(a.leaves, AddressesOf(a.leaves), LeafHashesOf(a.leaves), b.leaves, AddressesOf(b.leaves),
                 LeafHashesOf(b.leaves), LeafKey, LeafHash);
    LinksKeyed(a);
    LinksKeyed(b);
    MapsFromSame(a.plan.parentLinks, SlotsOf(a.plan.parentLinks), ChildrenOf(a.plan.parentLinks), b.plan.parentLinks,
                 SlotsOf(b.plan.parentLinks), ChildrenOf(b.plan.parentLinks), LinkKey, LinkChild);
  }

  /** The children of reordered links are distinct as well. */
  lemma ChildrenDistinct(a: HMFProof, b: HMFProof)
    requires SameUpToOrder(a, b) && ListedOnce(b)
    ensures Distinct(ChildrenOf(a.plan.parentLinks))
  {
    hide Keyed, Distinct, ToMap, SameList;
    ChildrenKeyed(a);
    ChildrenKeyed(b);
    MapsFromSame(a.plan.parentLinks, ChildrenOf(a.plan.parentLinks), SlotsOf(a.plan.parentLinks), b.plan.parentLinks,
                 ChildrenOf(b.plan.parentLinks), SlotsOf(b.plan.parentLinks), LinkChild, LinkKey);
  }

  lemma ChildrenKeyed(proof: HMFProof)
    ensures Keyed(proof.plan.parentLinks, ChildrenOf(proof.plan.parentLinks), SlotsOf(proof.plan.parentLinks),
                  LinkChild, LinkKey)
  {}

  // ---- Accepted proofs are the built one ----

  /** Over storage that holds the forest: a proof that plans the segment of every requested leaf and is accepted against
      the forest's root is the one the service builds, up to the order of its lists, or the hash collides. */
  lemma AcceptedIsBuilt(f: Forest, contents: Contents, storage: Storage, proof: HMFProof,
                        addresses: seq<PhysicalAddress>)
    requires Holds(f, contents, storage) && DistinctSegments(f)
    requires VerifiedRoot(proof, addresses) == Ok(ForestRoot(f)) && ReferenceProofs.AllPlanned(InputsOf(proof))
    ensures
      || Collide(RunPreimages(InputsOf(proof)), ForestPreimages(f, contents))
      || (Verifiable(storage, addresses, ForestRoot(f))
          && SameUpToOrder(proof, ProofOf(storage, Normalized(addresses).value)))
  {
    hide WellFormed, Backed, Faithful, Complete, DistinctSegments, Collide, RunPreimages, ForestPreimages, InputsOf,
      ForestRoot, GlobalRootOf, Sound, Normalized, Plannable, AllStored, ProofOf, ListedOnce, ValidInputs, AllSealed,
      Authentic, SameUpToOrder;
    var inp := InputsOf(proof);
    ProofsAreSound(f, contents, proof, addresses);
    if Sound(f, contents, inp) {
      RebuiltSealed(f, contents, proof, addresses);
      SomeAddress(proof, addresses);
      EndToEnd(f, contents, storage, addresses);
      BuiltAuthentic(f, contents, storage, addresses);
      RebuiltAuthentic(f, contents, inp);
      var built := ProofOf(storage, Normalized(addresses).value);
      SameLeaves(proof, built, addresses);
      SoundDetermines(f, contents, inp, InputsOf(built));
      SameAddresses(proof, built, addresses);
      SameInputs(proof, built);
    }
  }

  lemma SomeAddress(proof: HMFProof, addresses: seq<PhysicalAddress>)
    requires Acceptable(proof, addresses)
    ensures addresses != []
  {
    hide ListedOnce, Normalized, Distinct, Static, TargetsGiven, InputsOf;
    SomeLeaf(InputsOf(proof), GLOBAL_TREE);
    LeavesRequestedAre(proof, addresses);
  }

  lemma SameAddresses(a: HMFProof, b: HMFProof, addresses: seq<PhysicalAddress>)
    requires Acceptable(a, addresses) && Acceptable(b, addresses)
    ensures a.plan.addresses == b.plan.addresses && ListedOnce(a) && ListedOnce(b)
  {
    hide ListedOnce, Normalized, ValidInputs;
  }

  /** And every reordering of the lists of the proof that is built is accepted with the same root. */
  lemma ReorderedIsAccepted(storage: Storage, proof: HMFProof, addresses: seq<PhysicalAddress>, root: Digest)
    requires Verifiable(storage, addresses, root)
    requires SameUpToOrder(proof, ProofOf(storage, Normalized(addresses).value))
    ensures VerifiedRoot(proof, addresses) == Ok(root)
  {
    hide Normalized, Plannable, AllStored, ProofOf, ListedOnce, ValidInputs, GlobalRootOf, SameUpToOrder, InputsOf;
    var built := ProofOf(storage, Normalized(addresses).value);
    SameAddresses(built, built, addresses);
    ChildrenDistinct(proof, built);
    SameListed(proof, built);
    LeavesReordered(proof, built, addresses);
  }

  lemma LeavesReordered(a: HMFProof, b: HMFProof, addresses: seq<PhysicalAddress>)
    requires SameUpToOrder(a, b) && LeavesRequested(b, addresses) && InputsOf(a) == InputsOf(b)
    ensures LeavesRequested(a, addresses)
  {
    hide Normalized, ToMap, AddressesOf;
    var leaves := InputsOf(a).leaves;
    forall x | x in a.plan.addresses ensures x in AddressesOf(a.leaves) {
      assert x in AddressesOf(b.leaves);
      KeysAre(a);
      KeysAre(b);
    }
  }

  lemma KeysAre(a: HMFProof)
    ensures forall x :: x in InputsOf(a).leaves <==> x in AddressesOf(a.leaves)
  {}
}
