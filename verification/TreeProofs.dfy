/** What a one-tree proof proves: the planned nodes determine the root, and the root
    determines the planned nodes. */
module TreeProofs {
  import opened Hashing
  import opened Merkle
  import opened Sorting
  import opened ProofTypes
  import opened TreePlanning
  import opened TreeFold

  predicate Covers(p: Position, leaf: int) {
    p.level >= 0 && Ancestor(leaf, p.level) == p.index
  }

  /** The targets and the leaf spans of the needed nodes partition the leaves of the tree. */
  lemma PlanPartitionsLeaves(n: nat, targets: set<int>, leaf: int)
    requires ValidTargets(n, targets) && 0 <= leaf < n
    ensures leaf in targets ==> forall p :: p in NeededSet(n, targets) ==> !Covers(p, leaf)
    ensures leaf !in targets ==>
      exists p :: p in NeededSet(n, targets) && Covers(p, leaf)
        && forall q :: q in NeededSet(n, targets) && Covers(q, leaf) ==> q == p
  {
    hide Needed, MissingSibling, Active, Parents, Width, Height, Ancestor, Positions;
    TopActive(n, targets);
    AncestorInRange(n, leaf, Height(n));
    TopWidth(n);
    var level := LowestActive(targets, leaf, Height(n));
    forall p | p in NeededSet(n, targets) && Covers(p, leaf) ensures p.level + 1 == level {
      NeededIsBoundary(n, targets, leaf, level, p);
    }
    if level > 0 {
      BoundaryIsNeeded(n, targets, leaf, level);
      var p := Position(level - 1, Ancestor(leaf, level - 1));
      assert p in NeededSet(n, targets) && Covers(p, leaf);
    } else {
      BottomIsTarget(targets, leaf);
    }
  }

  lemma BottomIsTarget(targets: set<int>, leaf: int)
    ensures Ancestor(leaf, 0) in Active(targets, 0) <==> leaf in targets
  {}

  lemma BoundaryIsNeeded(n: nat, targets: set<int>, leaf: int, level: nat)
    requires 0 <= leaf < n && 0 < level <= Height(n)
    requires Ancestor(leaf, level) in Active(targets, level) && Ancestor(leaf, level - 1) !in Active(targets, level - 1)
    ensures Needed(n, targets, Position(level - 1, Ancestor(leaf, level - 1)))
    ensures leaf !in targets
  {
    AncestorInRange(n, leaf, level - 1);
    if leaf in targets { ActiveUpward(targets, leaf, 0, level - 1); }
  }

  /** The lowest level at which the node above a leaf is active. */
  lemma {:induction false} LowestActive(targets: set<int>, leaf: int, top: nat) returns (level: nat)
    requires Ancestor(leaf, top) in Active(targets, top)
    ensures level <= top && Ancestor(leaf, level) in Active(targets, level)
    ensures level > 0 ==> Ancestor(leaf, level - 1) !in Active(targets, level - 1)
    decreases top
  {
    if top > 0 && Ancestor(leaf, top - 1) in Active(targets, top - 1) {
      level := LowestActive(targets, leaf, top - 1);
    } else {
      level := top;
    }
  }

  lemma {:induction false} ActiveUpward(targets: set<int>, leaf: int, low: nat, high: nat)
    requires low <= high && Ancestor(leaf, low) in Active(targets, low)
    ensures Ancestor(leaf, high) in Active(targets, high)
    decreases high
  {
    if low < high { ActiveUpward(targets, leaf, low, high - 1); }
  }

  lemma NeededIsBoundary(n: nat, targets: set<int>, leaf: int, level: nat, p: Position)
    requires Ancestor(leaf, level) in Active(targets, level)
    requires level > 0 ==> Ancestor(leaf, level - 1) !in Active(targets, level - 1)
    requires Needed(n, targets, p) && Covers(p, leaf)
    ensures p.level + 1 == level
  {
    assert Ancestor(leaf, p.level + 1) in Active(targets, p.level + 1);
    if p.level >= level { ActiveUpward(targets, leaf, level, p.level); }
    if p.level + 1 < level { ActiveUpward(targets, leaf, p.level + 1, level - 1); }
  }

  /** Known leaves and proof nodes that are those of the tree over `leaves`. */
  ghost predicate Genuine(leaves: seq<Digest>, known: map<int, Digest>, proof: map<Position, Digest>) {
    && (forall i :: i in known ==> 0 <= i < |leaves| && known[i] == leaves[i])
    && (forall p :: p in proof ==> InTree(|leaves|, p) && proof[p] == NodeAt(leaves, p))
  }

  /** The nodes the plan asks for, with the values they have in the tree. */
  function TrueProof(leaves: seq<Digest>, targets: set<int>): map<Position, Digest> {
    map p | p in NeededSet(|leaves|, targets) :: NodeAt(leaves, p)
  }

  function TrueLeaves(leaves: seq<Digest>, targets: set<int>): map<int, Digest>
    requires forall t :: t in targets ==> 0 <= t < |leaves|
  {
    map i | i in targets :: leaves[i]
  }

  ghost predicate RowGenuine(leaves: seq<Digest>, level: nat, row: map<int, Digest>) {
    forall i :: i in row ==> 0 <= i < Width(|leaves|, level) && row[i] == Row(leaves, level)[i]
  }

  /** Folding the genuine nodes gives the tree's root: planned nodes suffice, for every
      leaf count and every set of targets. */
  lemma FoldComplete(leaves: seq<Digest>, known: map<int, Digest>, proof: map<Position, Digest>)
    requires Foldable(|leaves|, known, proof) && Genuine(leaves, known, proof)
    ensures FoldRoot(|leaves|, known, proof) == Root(leaves)
  {
    TopActive(|leaves|, known.Keys);
    ComputedGenuine(leaves, known, proof, Height(|leaves|));
  }

  /** Folding the children of `parent` takes the node from the proof: its sibling is computed, the node is not. */
  predicate TakenAt(targets: set<int>, p: Position, level: nat, parent: int) {
    && p.level == level && p.index / 2 == parent && p.index !in Active(targets, level)
    && parent in Active(targets, level + 1)
  }

  /** For every leaf count and every set of targets, the true values of the plan's nodes fold to the root, and each
      of them is listed once in the plan and taken at exactly one place. */
  lemma PlanThenFold(tree: TreeRef, leaves: seq<Digest>, targets: set<int>)
    requires ValidTargets(|leaves|, targets)
    ensures var known, proof := TrueLeaves(leaves, targets), TrueProof(leaves, targets);
      Foldable(|leaves|, known, proof) && FoldRoot(|leaves|, known, proof) == Root(leaves)
    ensures var required := CanonicalPlan(tree, |leaves|, targets).required;
      Sorted(PositionLess, required) && forall p :: p in required <==> p in TrueProof(leaves, targets)
    ensures forall p :: p in TrueProof(leaves, targets) ==> TakenOnce(targets, p)
  {
    hide Root, FoldRoot, Height, Width, Positions, Needed, TakenOnce;
    var known, proof := TrueLeaves(leaves, targets), TrueProof(leaves, targets);
    assert known.Keys == targets && proof.Keys == NeededSet(|leaves|, targets);
    FoldComplete(leaves, known, proof);
    forall p | p in proof ensures TakenOnce(targets, p) { NeededTaken(|leaves|, targets, p); }
  }

  ghost predicate TakenOnce(targets: set<int>, p: Position) {
    p.level >= 0 && TakenAt(targets, p, p.level, p.index / 2)
    && forall level: nat, parent :: TakenAt(targets, p, level, parent) ==> level == p.level && parent == p.index / 2
  }

  lemma NeededTaken(n: nat, targets: set<int>, p: Position)
    requires Needed(n, targets, p)
    ensures TakenOnce(targets, p)
  {}

  lemma {:induction false} ComputedGenuine(leaves: seq<Digest>, known: map<int, Digest>, proof: map<Position, Digest>,
                                           level: nat)
    requires Foldable(|leaves|, known, proof) && Genuine(leaves, known, proof) && level <= Height(|leaves|)
    ensures RowGenuine(leaves, level, Computed(|leaves|, known, proof, level))
    decreases level
  {
    ActiveInRange(|leaves|, known.Keys, level);
    if level > 0 {
      ComputedGenuine(leaves, known, proof, level - 1);
      forall i | i in Active(known.Keys, level)
        ensures Computed(|leaves|, known, proof, level)[i] == Row(leaves, level)[i]
      {
        ParentGenuine(leaves, known, proof, level - 1, i);
      }
    }
  }

  lemma ParentGenuine(leaves: seq<Digest>, known: map<int, Digest>, proof: map<Position, Digest>, level: nat,
                      parent: int)
    requires Foldable(|leaves|, known, proof) && Genuine(leaves, known, proof) && level < Height(|leaves|)
    requires RowGenuine(leaves, level, Computed(|leaves|, known, proof, level))
    requires parent in Active(known.Keys, level + 1)
    ensures Computed(|leaves|, known, proof, level + 1)[parent] == Row(leaves, level + 1)[parent]
  {
    hide Genuine, RowGenuine, NeededSet, Active, Computed, Row, Width, Height, ChildValue;
    ActiveInRange(|leaves|, known.Keys, level + 1);
    RowAt(leaves, level, parent);
    ComputedAt(|leaves|, known, proof, level, parent);
    ChildGenuine(leaves, known, proof, level, parent, 2 * parent);
    if 2 * parent + 1 < Width(|leaves|, level) { ChildGenuine(leaves, known, proof, level, parent, 2 * parent + 1); }
  }

  lemma ChildGenuine(leaves: seq<Digest>, known: map<int, Digest>, proof: map<Position, Digest>, level: nat,
                     parent: int, child: int)
    requires Foldable(|leaves|, known, proof) && Genuine(leaves, known, proof) && level < Height(|leaves|)
    requires RowGenuine(leaves, level, Computed(|leaves|, known, proof, level))
    requires parent in Active(known.Keys, level + 1) && child / 2 == parent && child < Width(|leaves|, level)
    requires 0 <= child
    ensures ChildValue(Computed(|leaves|, known, proof, level), proof, level, child) == Row(leaves, level)[child]
  {
    hide Computed, Row, Width, Height;
    if child !in Active(known.Keys, level) {
      assert Position(level, child) in NeededSet(|leaves|, known.Keys);
    }
  }

  /** The pairs a fold hashes. */
  function FoldPreimages(n: nat, known: map<int, Digest>, proof: map<Position, Digest>): set<Preimage> {
    set p | p in Positions(n) && HasTwoChildren(n, p) && p.index in Active(known.Keys, p.level) ::
      FoldPair(n, known, proof, p)
  }

  function FoldPair(n: nat, known: map<int, Digest>, proof: map<Position, Digest>, p: Position): Preimage
    requires HasTwoChildren(n, p)
  {
    var below := Computed(n, known, proof, p.level - 1);
    NodePair(ChildValue(below, proof, p.level - 1, 2 * p.index), ChildValue(below, proof, p.level - 1, 2 * p.index + 1))
  }

  /** Nothing the fold hashed collides with something different that the tree hashed. */
  ghost predicate NoCollision(leaves: seq<Digest>, known: map<int, Digest>, proof: map<Position, Digest>,
                              ours: set<Preimage>, theirs: set<Preimage>) {
    && Within(FoldPreimages(|leaves|, known, proof), ours)
    && Within(TreePreimages(leaves), theirs)
    && !Collide(ours, theirs)
  }

  /** A fold that reproduces the tree's root used the tree's own nodes, or the hash
      collides on something the fold and something the tree hashed. */
  lemma FoldSound(leaves: seq<Digest>, known: map<int, Digest>, proof: map<Position, Digest>)
    requires leaves != [] && Foldable(|leaves|, known, proof)
    requires FoldRoot(|leaves|, known, proof) == Root(leaves)
    ensures Genuine(leaves, known, proof) || Collide(FoldPreimages(|leaves|, known, proof), TreePreimages(leaves))
  {
    var ours, theirs := FoldPreimages(|leaves|, known, proof), TreePreimages(leaves);
    if !Collide(ours, theirs) { FoldGenuine(leaves, known, proof, ours, theirs); }
  }

  lemma FoldGenuine(leaves: seq<Digest>, known: map<int, Digest>, proof: map<Position, Digest>, ours: set<Preimage>,
                    theirs: set<Preimage>)
    requires leaves != [] && Foldable(|leaves|, known, proof)
    requires FoldRoot(|leaves|, known, proof) == Root(leaves)
    requires NoCollision(leaves, known, proof, ours, theirs)
    ensures Genuine(leaves, known, proof)
  {
    RowsSound(leaves, known, proof, ours, theirs, 0);
    forall p | p in proof ensures InTree(|leaves|, p) && proof[p] == NodeAt(leaves, p) {
      ProofSound(leaves, known, proof, ours, theirs, p);
    }
  }

  lemma ProofSound(leaves: seq<Digest>, known: map<int, Digest>, proof: map<Position, Digest>, ours: set<Preimage>,
                   theirs: set<Preimage>, p: Position)
    requires leaves != [] && Foldable(|leaves|, known, proof)
    requires FoldRoot(|leaves|, known, proof) == Root(leaves)
    requires NoCollision(leaves, known, proof, ours, theirs)
    requires p in proof
    ensures InTree(|leaves|, p) && proof[p] == NodeAt(leaves, p)
  {
    hide NoCollision, FoldPreimages, Within, TreePreimages, Active, NeededSet, Computed, Row, Width, Height;
    assert p in NeededSet(|leaves|, known.Keys);
    NeededParent(|leaves|, known.Keys, p);
    RowsSound(leaves, known, proof, ours, theirs, p.level + 1);
    ChildrenSound(leaves, known, proof, ours, theirs, p.level, p.index / 2);
    OneOfTwo(p.index);
    assert p == Position(p.level, p.index);
    assert ChildValue(Computed(|leaves|, known, proof, p.level), proof, p.level, p.index)
      == Row(leaves, p.level)[p.index];
  }

  lemma NeededParent(n: nat, targets: set<int>, p: Position)
    requires Needed(n, targets, p)
    ensures p.index !in Active(targets, p.level) && p.index / 2 in Active(targets, p.level + 1)
    ensures InTree(n, p) && p.level < Height(n)
  {}

  lemma OneOfTwo(i: int)
    ensures i == 2 * (i / 2) || i == 2 * (i / 2) + 1
  {}

  lemma {:induction false} RowsSound(leaves: seq<Digest>, known: map<int, Digest>, proof: map<Position, Digest>,
                                     ours: set<Preimage>, theirs: set<Preimage>, level: nat)
    requires leaves != [] && Foldable(|leaves|, known, proof) && level <= Height(|leaves|)
    requires FoldRoot(|leaves|, known, proof) == Root(leaves)
    requires NoCollision(leaves, known, proof, ours, theirs)
    ensures RowGenuine(leaves, level, Computed(|leaves|, known, proof, level))
    decreases Height(|leaves|) - level
  {
    hide NoCollision, FoldPreimages, Within, TreePreimages, Active, NeededSet, Computed, Row, Width, Height;
    if level == Height(|leaves|) {
      TopActive(|leaves|, known.Keys);
      TopWidth(|leaves|);
    } else {
      RowsSound(leaves, known, proof, ours, theirs, level + 1);
      forall i | i in Active(known.Keys, level)
        ensures 0 <= i < Width(|leaves|, level) && Computed(|leaves|, known, proof, level)[i] == Row(leaves, level)[i]
      {
        NodeSound(leaves, known, proof, ours, theirs, level, i);
      }
    }
  }

  lemma NodeSound(leaves: seq<Digest>, known: map<int, Digest>, proof: map<Position, Digest>, ours: set<Preimage>,
                  theirs: set<Preimage>, level: nat, i: int)
    requires leaves != [] && Foldable(|leaves|, known, proof) && level < Height(|leaves|)
    requires NoCollision(leaves, known, proof, ours, theirs)
    requires RowGenuine(leaves, level + 1, Computed(|leaves|, known, proof, level + 1))
    requires i in Active(known.Keys, level)
    ensures 0 <= i < Width(|leaves|, level) && Computed(|leaves|, known, proof, level)[i] == Row(leaves, level)[i]
  {
    hide NoCollision, FoldPreimages, Within, TreePreimages, Active, NeededSet, Computed, Row, Width, Height;
    ActiveInRange(|leaves|, known.Keys, level);
    ParentActive(known.Keys, level, i);
    ChildrenSound(leaves, known, proof, ours, theirs, level, i / 2);
    OneOfTwo(i);
    assert ChildValue(Computed(|leaves|, known, proof, level), proof, level, i) == Row(leaves, level)[i];
  }

  lemma ParentActive(targets: set<int>, level: nat, i: int)
    requires i in Active(targets, level)
    ensures i / 2 in Active(targets, level + 1)
  {}

  /** Equal parents have equal children. */
  lemma ChildrenSound(leaves: seq<Digest>, known: map<int, Digest>, proof: map<Position, Digest>, ours: set<Preimage>,
                      theirs: set<Preimage>, level: nat, parent: int)
    requires leaves != [] && Foldable(|leaves|, known, proof) && level < Height(|leaves|)
    requires NoCollision(leaves, known, proof, ours, theirs)
    requires RowGenuine(leaves, level + 1, Computed(|leaves|, known, proof, level + 1))
    requires parent in Active(known.Keys, level + 1)
    ensures var below := Computed(|leaves|, known, proof, level);
      && 0 <= parent && 2 * parent < Width(|leaves|, level)
      && ChildValue(below, proof, level, 2 * parent) == Row(leaves, level)[2 * parent]
      && (2 * parent + 1 < Width(|leaves|, level) ==>
           ChildValue(below, proof, level, 2 * parent + 1) == Row(leaves, level)[2 * parent + 1])
  {
    hide NoCollision, NeededSet, Active, Computed, Row, Width, Height, FoldPair, TreePair, ChildValue;
    ActiveInRange(|leaves|, known.Keys, level + 1);
    var p := Position(level + 1, parent);
    ComputedAt(|leaves|, known, proof, level, parent);
    RowAt(leaves, level, parent);
    if 2 * parent + 1 < Width(|leaves|, level) {
      FoldPairAt(|leaves|, known, proof, level, parent);
      PairsAgree(leaves, known, proof, ours, theirs, p);
    }
  }

  /** How a recomputed node depends on the level below. */
  lemma ComputedAt(n: nat, known: map<int, Digest>, proof: map<Position, Digest>, level: nat, parent: int)
    requires parent in Active(known.Keys, level + 1)
    ensures Computed(n, known, proof, level + 1)[parent]
         == Combine(Width(n, level), Computed(n, known, proof, level), proof, level, parent)
  {
    hide Active, Combine, Height, Width;
  }

  lemma FoldPairAt(n: nat, known: map<int, Digest>, proof: map<Position, Digest>, level: nat, parent: int)
    requires HasTwoChildren(n, Position(level + 1, parent))
    ensures var below := Computed(n, known, proof, level);
      FoldPair(n, known, proof, Position(level + 1, parent))
      == NodePair(ChildValue(below, proof, level, 2 * parent), ChildValue(below, proof, level, 2 * parent + 1))
  {
    hide Active, ChildValue, Height, Width, Computed;
    assert Position(level + 1, parent).level - 1 == level;
  }

  /** How a node of the tree depends on the level below. */
  lemma RowAt(leaves: seq<Digest>, level: nat, parent: int)
    requires level < Height(|leaves|) && 0 <= parent < Width(|leaves|, level + 1)
    ensures var row, p := Row(leaves, level), Position(level + 1, parent);
      && 2 * parent < |row|
      && Row(leaves, level + 1)[parent] == Parent(row, parent)
      && (2 * parent + 1 < |row| ==>
           HasTwoChildren(|leaves|, p) && TreePair(leaves, p) == NodePair(row[2 * parent], row[2 * parent + 1]))
  {
    hide Row, Width, Height, TreePair;
    RowStep(leaves, level);
    if 2 * parent + 1 < Width(|leaves|, level) { TreePairAt(leaves, level, parent); }
  }

  lemma TreePairAt(leaves: seq<Digest>, level: nat, parent: int)
    requires HasTwoChildren(|leaves|, Position(level + 1, parent))
    ensures var row := Row(leaves, level);
      TreePair(leaves, Position(level + 1, parent)) == NodePair(row[2 * parent], row[2 * parent + 1])
  {
    hide Height, Width, Row;
    assert Position(level + 1, parent).level - 1 == level;
  }

  lemma PairsAgree(leaves: seq<Digest>, known: map<int, Digest>, proof: map<Position, Digest>, ours: set<Preimage>,
                   theirs: set<Preimage>, p: Position)
    requires NoCollision(leaves, known, proof, ours, theirs)
    requires HasTwoChildren(|leaves|, p) && p.index in Active(known.Keys, p.level)
    requires H(FoldPair(|leaves|, known, proof, p)) == H(TreePair(leaves, p))
    ensures FoldPair(|leaves|, known, proof, p) == TreePair(leaves, p)
  {
    hide FoldPair, TreePair, HasTwoChildren, FoldPreimages, TreePreimages, Active;
    FoldPairHashed(|leaves|, known, proof, p);
    TreePairHashed(leaves, p);
    assert FoldPair(|leaves|, known, proof, p) in ours && TreePair(leaves, p) in theirs;
  }

  lemma FoldPairHashed(n: nat, known: map<int, Digest>, proof: map<Position, Digest>, p: Position)
    requires HasTwoChildren(n, p) && p.index in Active(known.Keys, p.level)
    ensures FoldPair(n, known, proof, p) in FoldPreimages(n, known, proof)
  {
    hide FoldPair, Active, Width, Height;
    assert p in Positions(n);
  }

  lemma TreePairHashed(leaves: seq<Digest>, p: Position)
    requires HasTwoChildren(|leaves|, p)
    ensures TreePair(leaves, p) in TreePreimages(leaves)
  {
    hide TreePair, Width, Height;
    assert p in Positions(|leaves|);
  }

  lemma RowStep(leaves: seq<Digest>, level: nat)
    ensures Row(leaves, level + 1) == ParentRow(Row(leaves, level))
    ensures Width(|leaves|, level + 1) == (Width(|leaves|, level) + 1) / 2
  {}
}
