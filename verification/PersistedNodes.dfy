/** Region and Global trees persist only the nodes on rewritten paths and their siblings
    (internal/hmf/region_tree.go:90-158, internal/hmf/global_tree.go:87-141). These suffice for
    every plan whose targets have been rewritten at least once. */
module PersistedNodes {
  import opened Hashing
  import opened Merkle
  import opened NodeStore
  import opened FixedTrees
  import opened ShardTrees
  import opened TreePlanning

  function Sibling(i: int): int {
    if i % 2 == 0 then i + 1 else i - 1
  }

  /** The store holds the path of a leaf and the siblings on it. */
  ghost predicate Covered(store: Store, n: nat, leaf: int) {
    forall l :: 0 <= l <= Height(n) ==> CoveredAt(store, n, leaf, l)
  }

  ghost predicate CoveredAt(store: Store, n: nat, leaf: int, level: nat) {
    && Position(level, Ancestor(leaf, level)) in store
    && (0 <= Sibling(Ancestor(leaf, level)) < Width(n, level) ==>
        Position(level, Sibling(Ancestor(leaf, level))) in store)
  }

  /** After an update the store agrees with the new tree wherever it is defined, covers the
      updated leaf, and still has every position it had. */
  lemma UpdateKeepsStore(store: Store, before: seq<Digest>, index: nat, hash: Digest)
    requires index < |before| && Agrees(store, before)
    ensures var after := before[index := hash];
      var store' := Replay(store, PathUpdates(after, index));
      Agrees(store', after) && Covered(store', |after|, index) && store.Keys <= store'.Keys
  {
    hide Replay, Agrees, PathUpdates, CoveredAt;
    var after := before[index := hash];
    var updates := PathUpdates(after, index);
    PathUpdatesAre(after, index);
    forall p | InTree(|before|, p) && !Emitted(updates, p)
      ensures InTree(|after|, p) && NodeAt(after, p) == NodeAt(before, p)
    {
      UnemittedKept(before, after, index, p);
    }
    ReplayAgrees(store, before, after, updates);
    forall l | 0 <= l <= Height(|after|) ensures CoveredAt(Replay(store, updates), |after|, index, l) {
      EmittedCovers(store, after, index, l);
    }
  }

  lemma UnemittedKept(before: seq<Digest>, after: seq<Digest>, index: nat, p: Position)
    requires |before| == |after| && index < |after| && after == before[index := after[index]]
    requires InTree(|before|, p) && !Emitted(PathUpdates(after, index), p)
    ensures NodeAt(after, p) == NodeAt(before, p)
  {
    hide Row, Width, Height, PathUpdates, Emitted, Ancestor, AllNodes;
    PathUpdatesAre(after, index);
    PathOnly(before, after, index, p.level);
    assert EmittedOnPath(after, PathUpdates(after, index), index, p.level);
    assert p == Position(p.level, p.index);
    assert p.index != Ancestor(index, p.level);
  }

  lemma EmittedCovers(store: Store, leaves: seq<Digest>, index: nat, level: nat)
    requires index < |leaves| && level <= Height(|leaves|)
    requires forall p :: p in Replay(store, PathUpdates(leaves, index)) <==>
      p in store || Emitted(PathUpdates(leaves, index), p)
    ensures CoveredAt(Replay(store, PathUpdates(leaves, index)), |leaves|, index, level)
  {
    hide Replay, PathUpdates, Height, Width, Ancestor, Emitted;
    PathUpdatesAre(leaves, index);
    var a := Ancestor(index, level);
    assert EmittedOnPath(leaves, PathUpdates(leaves, index), index, level);
  }

  ghost predicate EmittedOnPath(leaves: seq<Digest>, updates: seq<MerkleNode>, index: nat, level: nat) {
    && Emitted(updates, Position(level, Ancestor(index, level)))
    && (0 <= Sibling(Ancestor(index, level)) < Width(|leaves|, level) ==>
         Emitted(updates, Position(level, Sibling(Ancestor(index, level)))))
  }

  lemma PathUpdatesAre(leaves: seq<Digest>, index: nat)
    requires index < |leaves|
    ensures AllNodes(leaves, PathUpdates(leaves, index))
    ensures forall l :: 0 <= l <= Height(|leaves|) ==> EmittedOnPath(leaves, PathUpdates(leaves, index), index, l)
  {
    hide Row, Height, Emitted, PathAbove;
    var first, rest := MerkleNode(0, index, leaves[index]), PathAbove(leaves, 0, index);
    PathAboveAre(leaves, index, 0);
    FirstNode(leaves, index);
    var updates := PathUpdates(leaves, index);
    assert updates == [first] + rest;
    forall l | 0 <= l <= Height(|leaves|) ensures EmittedOnPath(leaves, updates, index, l) {
      EmittedCons(updates, Position(l, Ancestor(index, l)));
      EmittedCons(updates, Position(l, Sibling(Ancestor(index, l))));
    }
  }

  lemma FirstNode(leaves: seq<Digest>, index: nat)
    requires index < |leaves|
    ensures IsNode(leaves, MerkleNode(0, index, leaves[index]))
    ensures Ancestor(index, 0) == index && Width(|leaves|, 0) == |leaves|
  {}

  lemma {:induction false} PathAboveAre(leaves: seq<Digest>, index: nat, level: nat)
    requires index < |leaves| && level <= Height(|leaves|)
    ensures 0 <= Ancestor(index, level) < Width(|leaves|, level)
    ensures AllNodes(leaves, PathAbove(leaves, level, Ancestor(index, level)))
    ensures forall l :: level < l <= Height(|leaves|) ==>
      Emitted(PathAbove(leaves, level, Ancestor(index, level)), Position(l, Ancestor(index, l)))
    ensures forall l :: level <= l <= Height(|leaves|) && 0 <= Sibling(Ancestor(index, l)) < Width(|leaves|, l) ==>
      Emitted(PathAbove(leaves, level, Ancestor(index, level)), Position(l, Sibling(Ancestor(index, l))))
    decreases Height(|leaves|) - level
  {
    hide Row, Height, Emitted, PathAbove, Ancestor, Width;
    AncestorInRange(|leaves|, index, level);
    var i := Ancestor(index, level);
    if level == Height(|leaves|) {
      TopWidth(|leaves|);
      PathEnd(leaves, i);
    } else {
      AncestorStep(index, level);
      PathAboveAre(leaves, index, level + 1);
      PathAboveStep(leaves, level, i);
      StepNodes(leaves, level, i);
      var rest := PathAbove(leaves, level + 1, i / 2);
      var here := (if Sibling(i) < Width(|leaves|, level) then [RowNodes(leaves, level)[Sibling(i)]] else [])
                  + [RowNodes(leaves, level + 1)[i / 2]];
      assert PathAbove(leaves, level, i) == here + rest;
      forall p ensures Emitted(here + rest, p) <==> Emitted(here, p) || Emitted(rest, p) {
        SegmentTrees.EmittedConcat(here, rest, p);
      }
      AllNodesConcat(leaves, here, rest);
    }
  }

  lemma AllNodesConcat(leaves: seq<Digest>, a: seq<MerkleNode>, b: seq<MerkleNode>)
    requires AllNodes(leaves, a) && AllNodes(leaves, b)
    ensures AllNodes(leaves, a + b)
  {}

  lemma StepNodes(leaves: seq<Digest>, level: nat, i: nat)
    requires level < Height(|leaves|) && i < Width(|leaves|, level) && i / 2 < Width(|leaves|, level + 1)
    ensures var here := (if Sibling(i) < Width(|leaves|, level) then [RowNodes(leaves, level)[Sibling(i)]] else [])
                        + [RowNodes(leaves, level + 1)[i / 2]];
      && AllNodes(leaves, here)
      && Emitted(here, Position(level + 1, i / 2))
      && (0 <= Sibling(i) < Width(|leaves|, level) ==> Emitted(here, Position(level, Sibling(i))))
  {
    hide Row, Height, Width, AllNodes;
    if Sibling(i) < Width(|leaves|, level) {
      var a, b := RowNodes(leaves, level)[Sibling(i)], RowNodes(leaves, level + 1)[i / 2];
      assert At([a] + [b], 0) == Position(level, Sibling(i)) && At([a] + [b], 1) == Position(level + 1, i / 2);
      AllNodesOf(leaves, [a] + [b]);
    } else {
      var b := RowNodes(leaves, level + 1)[i / 2];
      assert At([] + [b], 0) == Position(level + 1, i / 2);
      AllNodesOf(leaves, [] + [b]);
    }
  }

  lemma AllNodesOf(leaves: seq<Digest>, nodes: seq<MerkleNode>)
    requires forall k :: 0 <= k < |nodes| ==> IsNode(leaves, nodes[k])
    ensures AllNodes(leaves, nodes)
  {}

  /** Only the nodes above the rewritten leaf change. */
  lemma {:induction false} PathOnly(before: seq<Digest>, after: seq<Digest>, index: nat, level: nat)
    requires |before| == |after| && index < |after| && after == before[index := after[index]]
    requires level <= Height(|after|)
    ensures Ancestor(index, level) >= 0 && OnPath(before, after, level, Ancestor(index, level))
    decreases level
  {
    if level == 0 {
      PathStart(before, after, index);
    } else {
      PathOnly(before, after, index, level - 1);
      PathStep(before, after, level - 1, Ancestor(index, level - 1));
    }
  }

  /** Every node a plan needs is the sibling of the node above one of its targets. */
  lemma {:induction false} ActiveIsAncestor(targets: set<int>, level: nat, i: int) returns (t: int)
    requires i in Active(targets, level)
    ensures t in targets && Ancestor(t, level) == i
    decreases level
  {
    if level == 0 {
      t := i;
    } else {
      var j :| j in Active(targets, level - 1) && j / 2 == i;
      t := ActiveIsAncestor(targets, level - 1, j);
    }
  }

  /** Stored nodes suffice: a plan over covered leaves finds every needed node in the store,
      with the value it has in the tree. */
  lemma CoveredSuffices(store: Store, leaves: seq<Digest>, targets: set<int>)
    requires Agrees(store, leaves) && forall t :: t in targets ==> Covered(store, |leaves|, t)
    ensures forall p :: p in NeededSet(|leaves|, targets) ==> p in store && store[p] == NodeAt(leaves, p)
  {
    forall p | p in NeededSet(|leaves|, targets) ensures p in store && store[p] == NodeAt(leaves, p) {
      NeededIsStored(store, leaves, targets, p);
    }
  }

  lemma NeededIsStored(store: Store, leaves: seq<Digest>, targets: set<int>, p: Position)
    requires Agrees(store, leaves) && forall t :: t in targets ==> Covered(store, |leaves|, t)
    requires Needed(|leaves|, targets, p)
    ensures p in store
  {
    hide Ancestor, Active, Width, Height, Agrees;
    var i :| i in Active(targets, p.level) && i / 2 == p.index / 2;
    var t := ActiveIsAncestor(targets, p.level, i);
    assert CoveredAt(store, |leaves|, t, p.level);
    assert Sibling(i) == p.index;
  }
}
