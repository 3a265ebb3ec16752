/** What localization finds (internal/localization/analyze.go, internal/localization/service.go). */
module LocalizationProofs {
  import opened Hashing
  import opened Merkle
  import opened ProofTypes
  import opened TreePlanning
  import opened TreeFold
  import T = TreeProofs
  import opened ProofInputs
  import opened Verifier
  import opened Localization

  // ---- The shape of a trace ----

  function Up(p: Position): Position {
    Position(p.level + 1, p.index / 2)
  }

  /** A node of a trace hangs below another one, and is hashed from its children if it has any. */
  ghost predicate NodeFolded(n: nat, m: Nodes, p: Position)
    requires p in m
  {
    && 0 <= p.level <= Height(n) && 0 <= p.index < Width(n, p.level)
    && (p.level < Height(n) ==> Up(p) in m && LeftChild(Up(p)) in m)
    && (p.level > 0 && LeftChild(p) in m ==>
          && (RightChild(p) in m <==> 2 * p.index + 1 < Width(n, p.level - 1))
          && m[p] == if RightChild(p) in m then HashPair(m[LeftChild(p)], m[RightChild(p)]) else m[LeftChild(p)])
    && (p.level > 0 && LeftChild(p) !in m ==> RightChild(p) !in m)
  }

  ghost predicate Folded(n: nat, m: Nodes) {
    Position(Height(n), 0) in m && forall p :: p in m ==> NodeFolded(n, m, p)
  }

  ghost predicate InRow(n: nat, known: map<int, Digest>, p: Position, level: int) {
    0 <= p.level <= level && p.index in Active(known.Keys, p.level)
  }

  /** `m` holds the supplied nodes and, over them, the nodes computed up to a level. */
  ghost predicate IsTraceTo(n: nat, known: map<int, Digest>, proof: map<Position, Digest>, level: int, m: Nodes) {
    && (forall p :: p in m <==> p in proof || InRow(n, known, p, level))
    && (forall p :: p in m ==>
        m[p] == if InRow(n, known, p, level) then Computed(n, known, proof, p.level)[p.index] else proof[p])
  }

  lemma {:induction false} TraceIs(n: nat, known: map<int, Digest>, proof: map<Position, Digest>, level: nat)
    ensures IsTraceTo(n, known, proof, level, Trace(n, known, proof, level))
    decreases level
  {
    hide Computed, Active, IsTraceTo;
    if level == 0 {
      FirstRow(n, known, proof);
    } else {
      TraceIs(n, known, proof, level - 1);
      NextRow(n, known, proof, level, Trace(n, known, proof, level - 1));
    }
  }

  lemma NextRow(n: nat, known: map<int, Digest>, proof: map<Position, Digest>, level: nat, m: Nodes)
    requires level > 0 && IsTraceTo(n, known, proof, level - 1, m)
    ensures IsTraceTo(n, known, proof, level, m + Lift(level, Computed(n, known, proof, level)))
  {
    hide Computed, Active;
    var row := Lift(level, Computed(n, known, proof, level));
    forall p ensures p in row <==> InRow(n, known, p, level) && !InRow(n, known, p, level - 1) {}
    forall p | p in row ensures row[p] == Computed(n, known, proof, p.level)[p.index] {}
  }

  lemma FirstRow(n: nat, known: map<int, Digest>, proof: map<Position, Digest>)
    ensures IsTraceTo(n, known, proof, 0, Trace(n, known, proof, 0))
  {}

  lemma TraceFolded(n: nat, known: map<int, Digest>, proof: map<Position, Digest>)
    requires Foldable(n, known, proof)
    ensures Folded(n, FullTrace(n, known, proof))
    ensures FullTrace(n, known, proof)[Position(Height(n), 0)] == FoldRoot(n, known, proof)
  {
    hide Computed, Active, Trace, Height, Width, NodeFolded, NeededSet;
    TraceIs(n, known, proof, Height(n));
    TopActive(n, known.Keys);
    var m := FullTrace(n, known, proof);
    forall p | p in m ensures NodeFolded(n, m, p) {
      if InRow(n, known, p, Height(n)) {
        ActiveFolded(n, known, proof, m, p);
      } else {
        NeededFolded(n, known, proof, m, p);
      }
    }
  }

  ghost predicate IsFullTrace(n: nat, known: map<int, Digest>, proof: map<Position, Digest>, m: Nodes) {
    IsTraceTo(n, known, proof, Height(n), m)
  }

  /** Both children of a recomputed node are in the trace. */
  lemma ChildIn(n: nat, known: map<int, Digest>, proof: map<Position, Digest>, m: Nodes, level: nat, i: int)
    requires Foldable(n, known, proof) && IsFullTrace(n, known, proof, m)
    requires level < Height(n) && i / 2 in Active(known.Keys, level + 1)
    ensures 0 <= i < Width(n, level) <==> Position(level, i) in m
    ensures Position(level, i) in m ==>
      m[Position(level, i)] == ChildValue(Computed(n, known, proof, level), proof, level, i)
  {
    hide Computed, Height, Width;
    ActiveInRange(n, known.Keys, level);
    assert Active(known.Keys, level + 1) == Parents(Active(known.Keys, level));
    var p := Position(level, i);
    assert InRow(n, known, p, Height(n)) <==> i in Active(known.Keys, level);
    assert p in proof <==> Needed(n, known.Keys, p);
  }

  lemma ActiveFolded(n: nat, known: map<int, Digest>, proof: map<Position, Digest>, m: Nodes, p: Position)
    requires Foldable(n, known, proof) && IsFullTrace(n, known, proof, m) && InRow(n, known, p, Height(n))
    ensures p in m && NodeFolded(n, m, p)
  {
    hide Computed, Height, Width, Active, ChildValue, NeededSet, IsFullTrace;
    InTrace(n, known, proof, m, p);
    ActiveInRange(n, known.Keys, p.level);
    if p.level < Height(n) {
      ActiveStep(known.Keys, p.level, p.index);
      InTrace(n, known, proof, m, Up(p));
      AboveIn(n, known, proof, m, p);
    }
    if p.level > 0 {
      ChildIn(n, known, proof, m, p.level - 1, 2 * p.index);
      ChildIn(n, known, proof, m, p.level - 1, 2 * p.index + 1);
      T.ComputedAt(n, known, proof, p.level - 1, p.index);
      WidthHalf(n, p.level);
    }
  }

  lemma WidthHalf(n: nat, level: nat)
    requires level > 0
    ensures Width(n, level) == (Width(n, level - 1) + 1) / 2
  {}

  lemma ActiveStep(targets: set<int>, level: nat, i: int)
    requires i in Active(targets, level)
    ensures i / 2 in Active(targets, level + 1)
  {}

  lemma InTrace(n: nat, known: map<int, Digest>, proof: map<Position, Digest>, m: Nodes, p: Position)
    requires IsFullTrace(n, known, proof, m) && InRow(n, known, p, Height(n))
    ensures p in m && m[p] == Computed(n, known, proof, p.level)[p.index]
  {
    hide Computed, Active, Height;
  }

  /** The left sibling of a traced node is traced. */
  lemma AboveIn(n: nat, known: map<int, Digest>, proof: map<Position, Digest>, m: Nodes, p: Position)
    requires Foldable(n, known, proof) && IsFullTrace(n, known, proof, m)
    requires 0 <= p.level < Height(n) && p.index / 2 in Active(known.Keys, p.level + 1)
    requires 0 <= p.index < Width(n, p.level)
    ensures LeftChild(Up(p)) in m
  {
    hide Computed, Height, Width, Active, ChildValue, NeededSet, IsFullTrace;
    ChildIn(n, known, proof, m, p.level, 2 * (p.index / 2));
  }

  lemma NeededFolded(n: nat, known: map<int, Digest>, proof: map<Position, Digest>, m: Nodes, p: Position)
    requires Foldable(n, known, proof) && IsFullTrace(n, known, proof, m) && p in proof
    requires !InRow(n, known, p, Height(n))
    ensures p in m && NodeFolded(n, m, p)
  {
    hide Computed, Height, Width, Active, ChildValue;
    assert Needed(n, known.Keys, p);
    ActiveParents(known.Keys, p.level);
    InTrace(n, known, proof, m, Up(p));
    AboveIn(n, known, proof, m, p);
    if p.level > 0 {
      NothingBelow(n, known, proof, m, p, 2 * p.index);
      NothingBelow(n, known, proof, m, p, 2 * p.index + 1);
    }
  }

  lemma ActiveParents(targets: set<int>, level: nat)
    ensures Active(targets, level + 1) == Parents(Active(targets, level))
  {}

  lemma NothingBelow(n: nat, known: map<int, Digest>, proof: map<Position, Digest>, m: Nodes, p: Position, i: int)
    requires Foldable(n, known, proof) && IsFullTrace(n, known, proof, m)
    requires 0 < p.level <= Height(n) && p.index !in Active(known.Keys, p.level) && i / 2 == p.index
    ensures Position(p.level - 1, i) !in m
  {
    hide Computed, Height, Width;
    ActiveParents(known.Keys, p.level - 1);
    var q := Position(p.level - 1, i);
    assert q in proof <==> Needed(n, known.Keys, q);
  }

  // ---- A mismatch is always traced to a suspect ----

  ghost predicate Differs(left: Nodes, right: Nodes, p: Position) {
    p in left && p in right && left[p] != right[p]
  }

  /** Below a node that both traces search, they have the same children; if no child differs, neither does the node. */
  lemma Children(n: nat, left: Nodes, right: Nodes, p: Position)
    requires Folded(n, left) && Folded(n, right) && p in left && p in right && CanDescend(left, right, p)
    ensures RightChild(p) in left <==> RightChild(p) in right
    ensures Differs(left, right, p) ==> Differs(left, right, LeftChild(p)) || Differs(left, right, RightChild(p))
  {
    hide Width, Height;
    assert NodeFolded(n, left, p) && NodeFolded(n, right, p);
  }

  /** All nodes compared are in both traces. */
  lemma {:induction false} FrontierShared(n: nat, left: Nodes, right: Nodes, p: Position, target: int)
    requires Folded(n, left) && Folded(n, right) && p in left && p in right
    ensures forall q :: q in Frontier(left, right, p, target) ==> q in left && q in right
    decreases if p.level < 0 then 0 else p.level
  {
    hide Folded;
    if p.level > target && CanDescend(left, right, p) {
      Children(n, left, right, p);
      FrontierShared(n, left, right, LeftChild(p), target);
      if RightChild(p) in left { FrontierShared(n, left, right, RightChild(p), target); }
    }
  }

  lemma {:induction false} DifferenceBelow(n: nat, left: Nodes, right: Nodes, p: Position,
                                           target: int) returns (q: Position)
    requires Folded(n, left) && Folded(n, right) && Differs(left, right, p)
    ensures q in Frontier(left, right, p, target) && Differs(left, right, q)
    decreases if p.level < 0 then 0 else p.level
  {
    hide Folded;
    q := p;
    if p.level > target && CanDescend(left, right, p) {
      Children(n, left, right, p);
      if Differs(left, right, LeftChild(p)) {
        q := DifferenceBelow(n, left, right, LeftChild(p), target);
      } else {
        q := DifferenceBelow(n, left, right, RightChild(p), target);
      }
    }
  }

  lemma {:induction false} InFrontierOf(left: Nodes, right: Nodes, active: seq<Position>, target: int, q: Position)
    ensures q in FrontierOf(left, right, active, target) <==>
      exists p :: p in active && q in Frontier(left, right, p, target)
    decreases |active|
  {
    hide Frontier;
    if active != [] {
      var rest, last := active[..|active| - 1], active[|active| - 1];
      assert active == rest + [last];
      InFrontierOf(left, right, rest, target, q);
      if q in FrontierOf(left, right, active, target) {
        if q in FrontierOf(left, right, rest, target) {
          var p :| p in rest && q in Frontier(left, right, p, target);
          assert p in active;
        } else {
          assert last in active && q in Frontier(left, right, last, target);
        }
      }
      if p :| p in active && q in Frontier(left, right, p, target) {
        assert p in rest || p == last;
      }
    }
  }

  /** The active nodes are in both traces and differ. */
  ghost predicate Live(c: Context, active: seq<Position>) {
    forall p :: p in active ==> Differs(c.left, c.right, p)
  }

  lemma NextLive(c: Context, n: nat, active: seq<Position>, target: int)
    requires Folded(n, c.left) && Folded(n, c.right) && Live(c, active)
    ensures Live(c, NextOf(c, SortedPositions(FrontierOf(c.left, c.right, active, target))))
  {
    hide Folded, Frontier, FrontierOf, NextOf;
    var frontier := SortedPositions(FrontierOf(c.left, c.right, active, target));
    forall q | q in NextOf(c, frontier) ensures Differs(c.left, c.right, q) {
      assert q in frontier;
      InFrontierOf(c.left, c.right, active, target, q);
      var p :| p in active && q in Frontier(c.left, c.right, p, target);
      FrontierShared(n, c.left, c.right, p, target);
    }
  }

  /** Some compared leaf of an upper tree differs because the tree below it does. */
  ghost predicate SomeChildMismatch(c: Context) {
    exists i :: ChildMismatch(c.auditor, c.reference, c.tree, i)
  }

  lemma {:induction false} SearchFinds(c: Context, n: nat, active: seq<Position>, level: nat, k: int)
    requires k >= 1 && AllAt(active, level) && active != []
    requires Folded(n, c.left) && Folded(n, c.right) && Live(c, active)
    ensures Found(c, active, level, k) != [] || SomeChildMismatch(c)
    decreases level
  {
    hide Folded, Frontier, FrontierOf, NextOf, SuspectsOf, Found, AllAt, Rounds, Round;
    var target := TargetLevel(level, k);
    var frontier := SortedPositions(FrontierOf(c.left, c.right, active, target));
    SearchStep(c, active, level, k);
    NextLive(c, n, active, target);
    assert active[0] in active;
    var q := DifferenceBelow(n, c.left, c.right, active[0], target);
    InFrontierOf(c.left, c.right, active, target, q);
    assert q in frontier;
    if IsSuspect(c, q) {
      SuspectListed(c, frontier, q);
    } else if q.level != 0 && CanDescend(c.left, c.right, q) {
      assert q in NextOf(c, frontier);
      SearchFinds(c, n, NextOf(c, frontier), target, k);
    }
  }

  lemma {:induction false} SuspectListed(c: Context, frontier: seq<Position>, q: Position)
    requires q in frontier && IsSuspect(c, q)
    ensures SuspectFor(c, q) in SuspectsOf(c, frontier)
    decreases |frontier|
  {
    hide IsSuspect, SuspectFor;
    var rest, last := frontier[..|frontier| - 1], frontier[|frontier| - 1];
    assert frontier == rest + [last];
    if q != last { SuspectListed(c, rest, q); }
  }

  /** An accepted proof and its recorded trace. */
  ghost predicate Accepted(e: Evidence) {
    ValidInputs(e.inputs) && IsTraceOf(e.inputs, e.trace)
  }

  lemma TracedTree(e: Evidence, t: TreeRef)
    requires Accepted(e)
    ensures t in e.trace.committedRoots <==> t in e.inputs.plans
    ensures t in e.inputs.plans ==>
      && e.inputs.plans[t].leafCount > 0 && NodesOf(e.trace.nodes, t) == TreeTrace(e.inputs, t)
      && Folded(e.inputs.plans[t].leafCount, NodesOf(e.trace.nodes, t))
      && e.trace.committedRoots[t] == CommittedRoot(t, e.inputs.plans[t].leafCount,
           NodesOf(e.trace.nodes, t)[Position(Height(e.inputs.plans[t].leafCount), 0)])
  {
    hide Static, TargetsGiven, TreeTrace, Folded, CommittedRoot, FoldRoot, RawRootOf, NodesOf;
    if t in e.inputs.plans {
      assert TreeEvaluated(e.inputs, t, e.trace.rawRoots[t], e.trace.committedRoots[t]);
      TraceSound(e.inputs, t);
      NodesTraced(e.inputs, e.trace, t);
    }
  }

  lemma NodesTraced(inp: Inputs, trace: ProofTrace, t: TreeRef)
    requires IsTraceOf(inp, trace) && t in inp.plans
    ensures NodesOf(trace.nodes, t) == TreeTrace(inp, t)
  {
    hide TreeTrace, CommittedRoot, RawRootOf, GlobalRootOf;
    var a, b := NodesOf(trace.nodes, t), TreeTrace(inp, t);
    assert forall p :: p in a <==> NodeRef(t, p) in trace.nodes;
    assert forall p :: p in a <==> p in b;
    assert a == b;
  }

  lemma TraceSound(inp: Inputs, t: TreeRef)
    requires ValidInputs(inp) && t in inp.plans
    ensures var n := inp.plans[t].leafCount;
      && n > 0 && Foldable(n, KnownLeaves(inp, t), NodesOf(inp.nodes, t))
      && TreeTrace(inp, t) == FullTrace(n, KnownLeaves(inp, t), NodesOf(inp.nodes, t))
      && Folded(n, TreeTrace(inp, t)) && TreeTrace(inp, t)[Position(Height(n), 0)] == RawRootOf(inp, t)
  {
    hide PlansValid, NodesPlanned, LinksValid, AllLinked, TargetsGiven, KnownLeaves, Foldable, FullTrace, Folded,
      FoldRoot, TreeTrace, RawRootOf, NodesOf;
    var known := KnownLeaves(inp, t);
    GivenFoldable(inp, t, known);
    TreeIs(inp, t);
    TraceFolded(inp.plans[t].leafCount, known, NodesOf(inp.nodes, t));
  }

  /** A tree whose committed roots differ yields a suspect, or has a child whose roots differ. */
  lemma TreeFinds(auditor: Evidence, reference: Evidence, addresses: seq<PhysicalAddress>, k: int, t: TreeRef)
    requires k >= 1 && Accepted(auditor) && Accepted(reference) && !RootsMatch(auditor, reference, t)
    ensures TreeSuspects(auditor, reference, addresses, k, t) != []
      || exists i :: ChildMismatch(auditor, reference, t, i)
  {
    hide Accepted, Folded, Found, ChildMismatch, CommittedRoot, NodesOf;
    if SameShape(auditor, reference, t) {
      TracedTree(auditor, t);
      TracedTree(reference, t);
      var n := auditor.inputs.plans[t].leafCount;
      var c := ContextOf(auditor, reference, addresses, t);
      var top := Position(Height(n), 0);
      StartsAt(Height(n));
      assert top in c.left && top in c.right by { hide *; TopTraced(n, c.left); TopTraced(n, c.right); }
      SearchFinds(c, n, [top], Height(n), k);
    }
  }

  lemma TopTraced(n: nat, m: Nodes)
    requires Folded(n, m)
    ensures Position(Height(n), 0) in m
  {}

  lemma {:induction false} SuspectsKept(auditor: Evidence, reference: Evidence, addresses: seq<PhysicalAddress>,
                                        k: int, trees: seq<TreeRef>, t: TreeRef, s: Suspect)
    requires k >= 1 && t in trees && s in TreeSuspects(auditor, reference, addresses, k, t)
    ensures s in AllSuspects(auditor, reference, addresses, k, trees)
    decreases |trees|
  {
    hide TreeSuspects;
    var rest, last := trees[..|trees| - 1], trees[|trees| - 1];
    assert trees == rest + [last];
    if t != last { SuspectsKept(auditor, reference, addresses, k, rest, t, s); }
  }

  lemma {:induction false} MismatchFound(auditor: Evidence, reference: Evidence, addresses: seq<PhysicalAddress>,
                                         k: int, t: TreeRef)
    requires k >= 1 && Accepted(auditor) && Accepted(reference) && !RootsMatch(auditor, reference, t)
    requires t in auditor.inputs.plans || t in reference.inputs.plans
    ensures AllSuspects(auditor, reference, addresses, k, UnionTrees(auditor, reference)) != []
    decreases t.layer
  {
    hide Static, TargetsGiven, IsTraceOf, TreeSuspects, AllSuspects, RootsMatch;
    TreeLayer(auditor, reference, t);
    TreeFinds(auditor, reference, addresses, k, t);
    var found := TreeSuspects(auditor, reference, addresses, k, t);
    if found != [] {
      assert found[0] in found && t in UnionTrees(auditor, reference);
      SuspectsKept(auditor, reference, addresses, k, UnionTrees(auditor, reference), t, found[0]);
    } else {
      var i :| ChildMismatch(auditor, reference, t, i);
      var c := reference.inputs.children[Slot(t, i)];
      ChildLayer(reference, Slot(t, i));
      MismatchFound(auditor, reference, addresses, k, c);
    }
  }

  lemma TreeLayer(auditor: Evidence, reference: Evidence, t: TreeRef)
    requires Accepted(auditor) && Accepted(reference) && (t in auditor.inputs.plans || t in reference.inputs.plans)
    ensures t.layer >= LAYER_SEGMENT
  {
    hide PlansValid, NodesPlanned, LinksValid, AllLinked, TargetsGiven, IsTraceOf;
    if t in auditor.inputs.plans { KnownLayer(auditor.inputs, t); } else { KnownLayer(reference.inputs, t); }
  }

  lemma ChildLayer(e: Evidence, s: Slot)
    requires Accepted(e) && s in e.inputs.children
    ensures e.inputs.children[s] in e.inputs.plans && e.inputs.children[s].layer == s.parent.layer - 1
  {
    hide PlansValid, NodesPlanned, AllLinked, TargetsGiven, IsTraceOf;
  }

  /** For any two accepted proofs with different global roots, whatever their trees and whatever
      the hash, localization reports a suspect. */
  lemma NeverEmpty(auditor: Evidence, reference: Evidence, addresses: seq<PhysicalAddress>, k: int)
    requires k >= 1 && Accepted(auditor) && Accepted(reference)
    requires auditor.trace.globalRoot != reference.trace.globalRoot
    ensures AnalysisOf(auditor, reference, addresses, k).suspects != []
  {
    hide TargetsGiven, Static, AllSuspects, BadShards, AllRounds, CommittedRoot, TreeTrace, RawRootOf;
    GlobalTraced(auditor);
    GlobalTraced(reference);
    MismatchFound(auditor, reference, addresses, k, GLOBAL_TREE);
    var all := AllSuspects(auditor, reference, addresses, k, UnionTrees(auditor, reference));
    assert multiset(SortSuspects(all)) == multiset(all) && all[0] in multiset(all);
  }

  lemma GlobalTraced(e: Evidence)
    requires Accepted(e)
    ensures GLOBAL_TREE in e.inputs.plans && GLOBAL_TREE in e.trace.committedRoots
    ensures e.trace.committedRoots[GLOBAL_TREE] == e.trace.globalRoot
  {
    hide TargetsGiven, Static, CommittedRoot, TreeTrace, RawRootOf;
    assert TreeEvaluated(e.inputs, GLOBAL_TREE, e.trace.rawRoots[GLOBAL_TREE], e.trace.committedRoots[GLOBAL_TREE]);
  }
}
