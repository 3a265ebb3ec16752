/** A proof made of the forest's own data evaluates to the forest's root. */
module ProofCompleteness {
  import opened Hashing
  import opened Merkle
  import opened ProofTypes
  import opened TreePlanning
  import opened TreeFold
  import opened TreeProofs
  import opened Forests
  import opened ForestTrees
  import opened ProofInputs
  import opened Verifier
  import opened ProofSoundness

  ghost predicate PlanTrue(f: Forest, contents: Contents, plan: TreePlan)
    requires Stored(f, contents)
  {
    HasTree(f, plan.tree) && plan.leafCount == |LeavesOf(f, contents, plan.tree)|
  }

  ghost predicate NodeTrue(f: Forest, contents: Contents, r: NodeRef, hash: Digest)
    requires Stored(f, contents)
  {
    HasTree(f, r.tree) && InTree(|LeavesOf(f, contents, r.tree)|, r.position)
    && hash == NodeAt(LeavesOf(f, contents, r.tree), r.position)
  }

  ghost predicate LeafTrue(f: Forest, contents: Contents, a: PhysicalAddress, hash: Digest)
    requires Stored(f, contents)
  {
    var t := SegmentOf(a);
    HasTree(f, t) && 0 <= a.leafID < |LeavesOf(f, contents, t)| && hash == LeavesOf(f, contents, t)[a.leafID]
  }

  /** Every plan, link, node and leaf is the forest's own. */
  ghost predicate Truthful(f: Forest, contents: Contents, inp: Inputs)
    requires Stored(f, contents)
  {
    && (forall t :: t in inp.plans ==> PlanTrue(f, contents, inp.plans[t]))
    && (forall r :: r in inp.nodes ==> NodeTrue(f, contents, r, inp.nodes[r]))
    && (forall a :: a in inp.leaves ==> LeafTrue(f, contents, a, inp.leaves[a]))
    && (forall s :: s in inp.children ==> LinkSound(f, inp, s))
  }

  /** Completeness: a well-formed proof of true data has the forest's root. */
  lemma TruthfulRoot(f: Forest, contents: Contents, inp: Inputs)
    requires Stored(f, contents) && ValidInputs(inp) && Truthful(f, contents, inp)
    ensures GlobalRootOf(inp) == ForestRoot(f)
  {
    hide WellFormed, Backed, ForestRoot, RawRootOf, LeavesOf, RawRoot, Static, TargetsGiven, Truthful, HasTree;
    TreeTrue(f, contents, inp, GLOBAL_TREE);
    GlobalRootIs(f, contents);
    CommittedRootIs(GLOBAL_TREE, inp.plans[GLOBAL_TREE].leafCount, RawRootOf(inp, GLOBAL_TREE));
  }

  lemma TruthfulIsSound(f: Forest, contents: Contents, inp: Inputs)
    requires Stored(f, contents) && ValidInputs(inp) && Truthful(f, contents, inp)
    ensures Sound(f, contents, inp)
  {
    hide WellFormed, Backed, RawRootOf, LeavesOf, RawRoot, ValidInputs, HasTree, Genuine, PlanTrue, NodeTrue, LeafTrue,
      LinkSound;
    forall t | t in inp.plans ensures TreeSound(f, contents, inp, t) && NodesSound(f, contents, inp, t) {
      TreeTrue(f, contents, inp, t);
    }
  }

  lemma PlanIsTrue(f: Forest, contents: Contents, inp: Inputs, t: TreeRef)
    requires Stored(f, contents) && ValidInputs(inp) && Truthful(f, contents, inp) && t in inp.plans
    ensures HasTree(f, t) && inp.plans[t].leafCount == |LeavesOf(f, contents, t)| > 0
    ensures ValidTargets(inp.plans[t].leafCount, TargetSet(inp.plans[t]))
  {
    hide WellFormed, Backed, LeavesOf, HasTree, NodesPlanned, LinksValid, AllLinked, TargetsGiven, NodeTrue, LeafTrue,
      LinkSound;
    assert PlanTrue(f, contents, inp.plans[t]) && ValidShape(inp.plans[t]);
  }

  /** Every tree's recomputed root is its own, from the Segments up. */
  lemma {:induction false} TreeTrue(f: Forest, contents: Contents, inp: Inputs, t: TreeRef)
    requires Stored(f, contents) && ValidInputs(inp) && Truthful(f, contents, inp) && t in inp.plans
    ensures HasTree(f, t) && inp.plans[t].leafCount == |LeavesOf(f, contents, t)|
    ensures RawRootOf(inp, t) == RawRoot(LeavesOf(f, contents, t))
    ensures Genuine(LeavesOf(f, contents, t), KnownLeaves(inp, t), NodesOf(inp.nodes, t))
    decreases t.layer
  {
    hide WellFormed, Backed, LeavesOf, HasTree, Truthful, KnownLeaves, NodesOf, RawRootOf, PlansValid, NodesPlanned,
      LinksValid, AllLinked, TargetsGiven, Foldable, Genuine, FoldRoot, Root;
    PlanIsTrue(f, contents, inp, t);
    var leaves, known := LeavesOf(f, contents, t), KnownLeaves(inp, t);
    GivenFoldable(inp, t, known);
    TreeIs(inp, t);
    forall i | i in known ensures 0 <= i < |leaves| && known[i] == leaves[i] {
      if t.layer == LAYER_SEGMENT {
        SegmentLeafTrue(f, contents, inp, t, i);
      } else {
        var s := Slot(t, i);
        LinkFound(inp, s);
        TreeTrue(f, contents, inp, inp.children[s]);
        ChildTrue(f, contents, inp, s);
      }
    }
    KnownIsGenuine(f, contents, inp, t, known);
    FoldComplete(leaves, known, NodesOf(inp.nodes, t));
  }

  lemma SegmentLeafTrue(f: Forest, contents: Contents, inp: Inputs, t: TreeRef, i: int)
    requires Stored(f, contents) && Truthful(f, contents, inp) && HasTree(f, t)
    requires t.layer == LAYER_SEGMENT && i in KnownLeaves(inp, t)
    ensures 0 <= i < |LeavesOf(f, contents, t)| && KnownLeaves(inp, t)[i] == LeavesOf(f, contents, t)[i]
  {
    hide WellFormed, Backed, LeavesOf, HasTree, PlanTrue, NodeTrue, LinkSound, KnownLeaves;
    assert SegmentOf(LeafAddress(t, i)) == t;
    assert LeafTrue(f, contents, LeafAddress(t, i), inp.leaves[LeafAddress(t, i)]);
  }

  lemma ChildTrue(f: Forest, contents: Contents, inp: Inputs, s: Slot)
    requires Stored(f, contents) && ValidInputs(inp) && Truthful(f, contents, inp) && s in inp.children
    requires var c := inp.children[s];
      && c in inp.plans && HasTree(f, c) && inp.plans[c].leafCount == |LeavesOf(f, contents, c)|
      && RawRootOf(inp, c) == RawRoot(LeavesOf(f, contents, c))
    ensures HasTree(f, s.parent) && 0 <= s.index < |LeavesOf(f, contents, s.parent)|
    ensures s.index in KnownLeaves(inp, s.parent)
    ensures KnownLeaves(inp, s.parent)[s.index] == LeavesOf(f, contents, s.parent)[s.index]
  {
    hide WellFormed, Backed, LeavesOf, HasTree, PlanTrue, NodeTrue, LeafTrue, KnownLeaves, RawRootOf, PlansValid,
      NodesPlanned, LinksValid, AllLinked, RawRoot, Commitment, ChildAt;
    LinkFound(inp, s);
    GivenLeaf(inp, s);
    PlanIsTrue(f, contents, inp, s.parent);
    assert TargetsGiven(inp, s.parent);
    LeafIsChild(f, contents, s.parent, s.index);
    assert LinkSound(f, inp, s);
  }

  lemma KnownIsGenuine(f: Forest, contents: Contents, inp: Inputs, t: TreeRef, known: map<int, Digest>)
    requires Stored(f, contents) && Truthful(f, contents, inp) && HasTree(f, t)
    requires forall i :: i in known ==> 0 <= i < |LeavesOf(f, contents, t)| && known[i] == LeavesOf(f, contents, t)[i]
    ensures Genuine(LeavesOf(f, contents, t), known, NodesOf(inp.nodes, t))
  {
    hide WellFormed, Backed, LeavesOf, HasTree, PlanTrue, LeafTrue, LinkSound, InTree, NodeAt;
    forall p | p in NodesOf(inp.nodes, t)
      ensures InTree(|LeavesOf(f, contents, t)|, p) && NodesOf(inp.nodes, t)[p] == NodeAt(LeavesOf(f, contents, t), p)
    {
      assert NodeTrue(f, contents, NodeRef(t, p), inp.nodes[NodeRef(t, p)]);
    }
  }
}
