/** For two accepted proofs with the same plan, localization reports exactly the supplied
    leaves and nodes that differ (internal/localization/analyze.go). */
module LocalizationExact {
  import opened Hashing
  import opened Merkle
  import opened Sorting
  import opened ProofTypes
  import opened TreePlanning
  import opened TreeFold
  import opened ProofInputs
  import opened ProofBuilding
  import opened Verifier
  import opened ForestTrees
  import opened ProofSoundness
  import opened Localization
  import opened LocalizationProofs

  // ---- The ends of a trace: its nodes without children ----

  predicate IsEnd(m: Nodes, p: Position) {
    p in m && (p.level <= 0 || LeftChild(p) !in m)
  }

  function EndsBelow(m: Nodes, p: Position): set<Position>
    decreases if p.level < 0 then 0 else p.level
  {
    if p.level <= 0 || LeftChild(p) !in m then {p}
    else EndsBelow(m, LeftChild(p)) + if RightChild(p) in m then EndsBelow(m, RightChild(p)) else {}
  }

  /** The pairs hashed between the nodes of a trace. */
  function PairsOf(m: Nodes): set<Preimage> {
    set p | p in m && LeftChild(p) in m && RightChild(p) in m && p.level > 0
      :: NodePair(m[LeftChild(p)], m[RightChild(p)])
  }

  ghost predicate SameTree(n: nat, left: Nodes, right: Nodes) {
    Folded(n, left) && Folded(n, right) && left.Keys == right.Keys && !Collide(PairsOf(left), PairsOf(right))
  }

  lemma ChildrenAgree(n: nat, left: Nodes, right: Nodes, p: Position)
    requires SameTree(n, left, right) && p in left && left[p] == right[p] && p.level > 0 && LeftChild(p) in left
    ensures left[LeftChild(p)] == right[LeftChild(p)]
    ensures RightChild(p) in left ==> left[RightChild(p)] == right[RightChild(p)]
  {
    hide Width, Height;
    assert NodeFolded(n, left, p) && NodeFolded(n, right, p);
    if RightChild(p) in left {
      var a, b := NodePair(left[LeftChild(p)], left[RightChild(p)]),
        NodePair(right[LeftChild(p)], right[RightChild(p)]);
      assert a in PairsOf(left) && b in PairsOf(right);
    }
  }

  /** Below equal nodes nothing differs. */
  lemma {:induction false} PrunedEqual(n: nat, left: Nodes, right: Nodes, p: Position)
    requires SameTree(n, left, right) && p in left && left[p] == right[p]
    ensures forall q :: q in EndsBelow(left, p) ==> q in left && left[q] == right[q]
    decreases if p.level < 0 then 0 else p.level
  {
    hide SameTree;
    if p.level > 0 && LeftChild(p) in left {
      ChildrenAgree(n, left, right, p);
      assert right.Keys == left.Keys by { hide *; SameKeys(n, left, right); }
      PrunedEqual(n, left, right, LeftChild(p));
      if RightChild(p) in left { PrunedEqual(n, left, right, RightChild(p)); }
    }
  }

  lemma SameKeys(n: nat, left: Nodes, right: Nodes)
    requires SameTree(n, left, right)
    ensures left.Keys == right.Keys && Folded(n, left) && Folded(n, right)
    ensures forall p :: p in left <==> p in right
  {
    assert forall p :: p in left <==> p in left.Keys;
  }

  /** The frontier splits the ends among its nodes. */
  lemma {:induction false} FrontierEnds(left: Nodes, right: Nodes, p: Position, target: int, e: Position)
    requires (forall q :: q in left <==> q in right) && target >= 0
    ensures e in EndsBelow(left, p) <==> exists q :: q in Frontier(left, right, p, target) && e in EndsBelow(left, q)
    decreases if p.level < 0 then 0 else p.level
  {
    if p.level > target && CanDescend(left, right, p) {
      FrontierEnds(left, right, LeftChild(p), target, e);
      if RightChild(p) in left { FrontierEnds(left, right, RightChild(p), target, e); }
    } else {
      assert Frontier(left, right, p, target) == {p};
      assert p in Frontier(left, right, p, target);
    }
  }

  /** Every end is below the top. */
  lemma {:induction false} EndsAbove(n: nat, m: Nodes, p: Position, e: Position)
    requires Folded(n, m) && p in m && e in EndsBelow(m, p)
    ensures e in EndsBelow(m, Position(Height(n), 0))
    decreases Height(n) - p.level
  {
    hide EndsBelow, NodeFolded;
    AboveFolded(n, m, p);
    if p.level < Height(n) {
      EndsStep(m, p, e);
      EndsAbove(n, m, Up(p), e);
    } else {
      OnlyTop(n, m, p);
    }
  }

  lemma AboveFolded(n: nat, m: Nodes, p: Position)
    requires Folded(n, m) && p in m
    ensures 0 <= p.level <= Height(n) && (p.level < Height(n) ==> Up(p) in m && LeftChild(Up(p)) in m)
  {
    hide Width, Height;
    assert NodeFolded(n, m, p);
  }

  lemma EndsStep(m: Nodes, p: Position, e: Position)
    requires p in m && p.level >= 0 && LeftChild(Up(p)) in m && e in EndsBelow(m, p)
    ensures e in EndsBelow(m, Up(p))
  {
    assert p == LeftChild(Up(p)) || p == RightChild(Up(p));
  }

  lemma OnlyTop(n: nat, m: Nodes, p: Position)
    requires Folded(n, m) && p in m && p.level == Height(n)
    ensures p == Position(Height(n), 0)
  {
    hide Width, Height;
    assert NodeFolded(n, m, p);
    TopIsOne(n, p.index);
  }

  lemma TopIsOne(n: nat, i: int)
    requires 0 <= i < Width(n, Height(n))
    ensures i == 0
  {
    if n > 0 { TopWidth(n); }
  }

  // ---- What the search in one tree reports ----

  ghost predicate BelowActive(m: Nodes, active: seq<Position>, e: Position) {
    exists p :: p in active && e in EndsBelow(m, p)
  }

  /** A differing end below the active nodes that no child tree explains. */
  ghost predicate Reported(c: Context, active: seq<Position>, e: Position) {
    && BelowActive(c.left, active, e) && Differs(c.left, c.right, e)
    && !(e.level == 0 && ChildMismatch(c.auditor, c.reference, c.tree, e.index))
  }

  ghost predicate Reports(c: Context, active: seq<Position>, s: Suspect) {
    Reported(c, active, s.ref.position) && s == SuspectFor(c, s.ref.position)
  }

  lemma {:induction false} InSuspects(c: Context, frontier: seq<Position>, s: Suspect)
    ensures s in SuspectsOf(c, frontier)
       <==> s.ref.position in frontier && IsSuspect(c, s.ref.position) && s == SuspectFor(c, s.ref.position)
    decreases |frontier|
  {
    hide IsSuspect;
    if frontier != [] {
      var rest, last := frontier[..|frontier| - 1], frontier[|frontier| - 1];
      assert frontier == rest + [last];
      InSuspects(c, rest, s);
    }
  }

  lemma {:induction false} SearchExact(c: Context, n: nat, active: seq<Position>, level: nat, k: int, s: Suspect)
    requires k >= 1 && AllAt(active, level) && SameTree(n, c.left, c.right) && forall p :: p in active ==> p in c.left
    ensures s in Found(c, active, level, k) <==> Reports(c, active, s)
    decreases level, |active|
  {
    hide Rounds, Round, Found, AllAt, FrontierOf, NextOf, SuspectsOf, IsSuspect, IsNext, Reports, SuspectFor, SameTree,
      EndsBelow;
    if active == [] {
      SearchOver(c, level, k);
      NothingReported(c, s);
    } else {
      var target := TargetLevel(level, k);
      var frontier := SortedPositions(FrontierOf(c.left, c.right, active, target));
      SearchStep(c, active, level, k);
      FrontierIn(c, n, active, target);
      forall p | p in NextOf(c, frontier) ensures p in c.left {}
      if level > 0 {
        SearchExact(c, n, NextOf(c, frontier), target, k, s);
      } else {
        SearchOver(c, target, k);
        NothingReported(c, s);
      }
      InSuspects(c, frontier, s);
      RoundReports(c, n, active, target, frontier, s);
    }
  }

  lemma NothingReported(c: Context, s: Suspect)
    ensures !Reports(c, [], s)
  {}

  lemma FrontierIn(c: Context, n: nat, active: seq<Position>, target: int)
    requires SameTree(n, c.left, c.right) && forall p :: p in active ==> p in c.left
    ensures forall q :: q in FrontierOf(c.left, c.right, active, target) ==> q in c.left && q in c.right
  {
    hide FrontierOf, SameTree, Frontier;
    SameKeys(n, c.left, c.right);
    forall q | q in FrontierOf(c.left, c.right, active, target) ensures q in c.left && q in c.right {
      InFrontierOf(c.left, c.right, active, target, q);
      var p :| p in active && q in Frontier(c.left, c.right, p, target);
      FrontierShared(n, c.left, c.right, p, target);
    }
  }

  /** One round reports the frontier's suspects and leaves the rest to the next. */
  lemma RoundReports(c: Context, n: nat, active: seq<Position>, target: int, frontier: seq<Position>, s: Suspect)
    requires SameTree(n, c.left, c.right) && target >= 0 && forall p :: p in active ==> p in c.left
    requires frontier == SortedPositions(FrontierOf(c.left, c.right, active, target))
    ensures Reports(c, active, s)
       <==> (s.ref.position in frontier && IsSuspect(c, s.ref.position) && s == SuspectFor(c, s.ref.position))
            || Reports(c, NextOf(c, frontier), s)
  {
    hide FrontierOf, SameTree, NextOf, EndsBelow, IsSuspect, IsNext, SuspectFor, Reported;
    var e := s.ref.position;
    FrontierIn(c, n, active, target);
    if Reported(c, active, e) {
      var q := ReportedAt(c, n, active, target, e);
      assert q in frontier;
      ReportedThen(c, n, NextOf(c, frontier), e, q);
    }
    if e in frontier && IsSuspect(c, e) {
      SuspectReported(c, n, active, target, e, e);
    }
    if Reported(c, NextOf(c, frontier), e) {
      var q := NextReported(c, frontier, e);
      SuspectReported(c, n, active, target, q, e);
    }
  }

  /** The frontier node above a reported end. */
  lemma ReportedAt(c: Context, n: nat, active: seq<Position>, target: int, e: Position) returns (q: Position)
    requires SameTree(n, c.left, c.right) && target >= 0 && Reported(c, active, e)
    ensures q in FrontierOf(c.left, c.right, active, target) && e in EndsBelow(c.left, q)
    ensures Differs(c.left, c.right, e) && !(e.level == 0 && ChildMismatch(c.auditor, c.reference, c.tree, e.index))
  {
    hide FrontierOf, SameTree, Frontier, EndsBelow;
    SameKeys(n, c.left, c.right);
    var p :| p in active && e in EndsBelow(c.left, p);
    FrontierEnds(c.left, c.right, p, target, e);
    q :| q in Frontier(c.left, c.right, p, target) && e in EndsBelow(c.left, q);
    InFrontierOf(c.left, c.right, active, target, q);
  }

  lemma ReportedThen(c: Context, n: nat, next: seq<Position>, e: Position, q: Position)
    requires SameTree(n, c.left, c.right) && q in c.left && e in EndsBelow(c.left, q) && Differs(c.left, c.right, e)
    requires !(e.level == 0 && ChildMismatch(c.auditor, c.reference, c.tree, e.index))
    requires IsNext(c, q) ==> q in next
    ensures (e == q && IsSuspect(c, e)) || Reported(c, next, e)
  {
    hide SameTree, EndsBelow, CanDescend, ChildMismatch;
    SameKeys(n, c.left, c.right);
    assert Differs(c.left, c.right, q) by { hide *; NotPruned(n, c.left, c.right, q, e); }
    NonNegative(n, c.left, q);
    if q.level == 0 || !CanDescend(c.left, c.right, q) {
      EndAlone(c.left, c.right, q, e);
    } else {
      assert q in next;
    }
  }

  lemma NotPruned(n: nat, left: Nodes, right: Nodes, q: Position, e: Position)
    requires SameTree(n, left, right) && q in left && e in EndsBelow(left, q) && Differs(left, right, e)
    ensures Differs(left, right, q)
  {
    hide SameTree, EndsBelow;
    SameKeys(n, left, right);
    if left[q] == right[q] { PrunedEqual(n, left, right, q); }
  }

  lemma EndAlone(left: Nodes, right: Nodes, q: Position, e: Position)
    requires (forall p :: p in left <==> p in right) && (q.level == 0 || !CanDescend(left, right, q))
      && e in EndsBelow(left, q)
    ensures e == q
  {}

  lemma NonNegative(n: nat, m: Nodes, p: Position)
    requires Folded(n, m) && p in m
    ensures p.level >= 0
  {
    hide Width, Height;
    assert NodeFolded(n, m, p);
  }

  /** An end below a suspect or searched frontier node is below the active nodes. */
  lemma SuspectReported(c: Context, n: nat, active: seq<Position>, target: int, q: Position, e: Position)
    requires SameTree(n, c.left, c.right) && target >= 0 && forall p :: p in active ==> p in c.left
    requires q in FrontierOf(c.left, c.right, active, target) && q in c.left && q in c.right
    requires (q == e && IsSuspect(c, e)) || (e in EndsBelow(c.left, q) && Reported(c, [q], e))
    ensures Reported(c, active, e)
  {
    hide FrontierOf, SameTree, Frontier;
    SameKeys(n, c.left, c.right);
    InFrontierOf(c.left, c.right, active, target, q);
    var p :| p in active && q in Frontier(c.left, c.right, p, target);
    assert e in EndsBelow(c.left, q);
    FrontierEnds(c.left, c.right, p, target, e);
  }

  lemma NextReported(c: Context, frontier: seq<Position>, e: Position) returns (q: Position)
    requires Reported(c, NextOf(c, frontier), e)
    ensures q in frontier && e in EndsBelow(c.left, q) && Reported(c, [q], e)
  {
    hide NextOf, EndsBelow;
    q :| q in NextOf(c, frontier) && e in EndsBelow(c.left, q);
    assert q in [q];
  }

  // ---- Each suspect once, in order ----

  ghost predicate DistinctRefs(s: seq<Suspect>) {
    forall i, j :: 0 <= i < j < |s| ==> s[i].ref != s[j].ref
  }

  lemma FrontierBelow(left: Nodes, right: Nodes, from: Position, target: int, q: Position)
    requires 0 <= target < from.level && CanDescend(left, right, from) && q in Frontier(left, right, from, target)
    ensures target <= q.level < from.level
  {
    if q in Frontier(left, right, LeftChild(from), target) {
      FrontierLevel(left, right, LeftChild(from), target, q);
    } else {
      FrontierLevel(left, right, RightChild(from), target, q);
    }
  }

  /** A search below descendable nodes reports only lower ones. */
  lemma {:induction false} FoundBelow(c: Context, active: seq<Position>, level: nat, k: int, s: Suspect)
    requires k >= 1 && AllAt(active, level) && (forall p :: p in active ==> CanDescend(c.left, c.right, p))
    requires s in Found(c, active, level, k)
    ensures s.ref.position.level < level && s.ref.tree == c.tree
    decreases level, |active|
  {
    hide Rounds, Round, Found, FrontierOf, NextOf, SuspectsOf, Frontier;
    if active == [] {
      SearchOver(c, level, k);
    } else {
      var target := TargetLevel(level, k);
      var frontier := SortedPositions(FrontierOf(c.left, c.right, active, target));
      assert active[0] in active;
      SearchStep(c, active, level, k);
      InSuspects(c, frontier, s);
      if s in SuspectsOf(c, frontier) {
        var q := s.ref.position;
        InFrontierOf(c.left, c.right, active, target, q);
        var p :| p in active && q in Frontier(c.left, c.right, p, target);
        FrontierBelow(c.left, c.right, p, target, q);
      } else {
        FoundBelow(c, NextOf(c, frontier), target, k, s);
      }
    }
  }

  lemma {:induction false} SuspectsDistinct(c: Context, frontier: seq<Position>)
    requires Sorted(HigherFirst, frontier)
    ensures DistinctRefs(SuspectsOf(c, frontier))
    decreases |frontier|
  {
    hide IsSuspect;
    if frontier != [] {
      var rest, last := frontier[..|frontier| - 1], frontier[|frontier| - 1];
      SuspectsDistinct(c, rest);
      forall s | s in SuspectsOf(c, rest) ensures s.ref.position != last {
        InSuspects(c, rest, s);
        var i :| 0 <= i < |rest| && rest[i] == s.ref.position;
        assert HigherFirst(frontier[i], frontier[|frontier| - 1]);
      }
    }
  }

  lemma ConcatDistinct(a: seq<Suspect>, b: seq<Suspect>)
    requires DistinctRefs(a) && DistinctRefs(b) && forall x, y :: x in a && y in b ==> x.ref != y.ref
    ensures DistinctRefs(a + b)
  {}

  lemma {:induction false} FoundDistinct(c: Context, active: seq<Position>, level: nat, k: int)
    requires k >= 1 && AllAt(active, level)
    ensures DistinctRefs(Found(c, active, level, k))
    ensures forall s :: s in Found(c, active, level, k) ==> s.ref.tree == c.tree
    decreases level, |active|
  {
    hide Rounds, Round, Found, FrontierOf, NextOf, SuspectsOf, IsSuspect, DistinctRefs, Sorted;
    if active == [] {
      SearchOver(c, level, k);
      ShortDistinct([]);
    } else {
      var target := TargetLevel(level, k);
      var frontier := SortedPositions(FrontierOf(c.left, c.right, active, target));
      var next := NextOf(c, frontier);
      SearchStep(c, active, level, k);
      SuspectsDistinct(c, frontier);
      if level > 0 {
        FoundDistinct(c, next, target, k);
      } else {
        SearchOver(c, target, k);
        ShortDistinct([]);
      }
      forall x, y | x in SuspectsOf(c, frontier) && y in Found(c, next, target, k) ensures x.ref != y.ref {
        InSuspects(c, frontier, x);
        FrontierLevels(c.left, c.right, active, level, target, x.ref.position);
        FoundBelow(c, next, target, k, y);
      }
      forall x | x in SuspectsOf(c, frontier) ensures x.ref.tree == c.tree { InSuspects(c, frontier, x); }
      ConcatDistinct(SuspectsOf(c, frontier), Found(c, next, target, k));
    }
  }

  lemma TreeDistinct(auditor: Evidence, reference: Evidence, addresses: seq<PhysicalAddress>, k: int, t: TreeRef)
    requires k >= 1
    ensures DistinctRefs(TreeSuspects(auditor, reference, addresses, k, t))
    ensures forall s :: s in TreeSuspects(auditor, reference, addresses, k, t) ==> s.ref.tree == t
  {
    hide RootsMatch, SameShape, Found, DistinctRefs;
    if !RootsMatch(auditor, reference, t) && SameShape(auditor, reference, t) {
      var height := TreeHeightOf(ShapeCount(auditor.inputs, t));
      StartsAt(height);
      FoundDistinct(ContextOf(auditor, reference, addresses, t), [Position(height, 0)], height, k);
    } else {
      ShortDistinct(TreeSuspects(auditor, reference, addresses, k, t));
    }
  }

  lemma ShortDistinct(s: seq<Suspect>)
    requires |s| <= 1
    ensures DistinctRefs(s)
  {}

  ghost predicate InTreeSuspects(auditor: Evidence, reference: Evidence, addresses: seq<PhysicalAddress>, k: int,
                                 trees: seq<TreeRef>, s: Suspect)
    requires k >= 1
  {
    s.ref.tree in trees && s in TreeSuspects(auditor, reference, addresses, k, s.ref.tree)
  }

  lemma {:induction false} AllDistinct(auditor: Evidence, reference: Evidence, addresses: seq<PhysicalAddress>,
                                       k: int, trees: seq<TreeRef>)
    requires k >= 1 && Distinct(trees)
    ensures DistinctRefs(AllSuspects(auditor, reference, addresses, k, trees))
    ensures forall s ::
      s in AllSuspects(auditor, reference, addresses, k, trees) <==>
        InTreeSuspects(auditor, reference, addresses, k, trees, s)
    decreases |trees|
  {
    hide TreeSuspects, DistinctRefs;
    if trees == [] {
      ShortDistinct([]);
    } else {
      var rest, last := trees[..|trees| - 1], trees[|trees| - 1];
      assert trees == rest + [last];
      AllDistinct(auditor, reference, addresses, k, rest);
      TreeDistinct(auditor, reference, addresses, k, last);
      assert last !in rest;
      ConcatDistinct(AllSuspects(auditor, reference, addresses, k, rest),
                     TreeSuspects(auditor, reference, addresses, k, last));
    }
  }

  ghost predicate InOrder(s: seq<Suspect>) {
    forall i, j :: 0 <= i < j < |s| ==> RefLess(s[i].ref, s[j].ref)
  }

  lemma {:induction false} InsertInOrder(s: seq<Suspect>, x: Suspect)
    requires InOrder(s) && forall y :: y in s ==> y.ref != x.ref
    ensures InOrder(InsertSuspect(s, x)) && forall y :: y in InsertSuspect(s, x) <==> y in s || y == x
    decreases |s|
  {
    hide RefLess;
    RefOrder();
    if s != [] && !RefLess(x.ref, s[0].ref) {
      assert s == [s[0]] + s[1..];
      InsertInOrder(s[1..], x);
      var rest := InsertSuspect(s[1..], x);
      forall i | 0 <= i < |rest| ensures RefLess(s[0].ref, rest[i].ref) { assert rest[i] in rest; }
    } else {
      forall i | 0 <= i < |s| ensures RefLess(x.ref, s[i].ref) { assert i == 0 || RefLess(s[0].ref, s[i].ref); }
    }
  }

  lemma {:induction false} SortedSuspects(s: seq<Suspect>)
    requires DistinctRefs(s)
    ensures InOrder(SortSuspects(s)) && forall y :: y in SortSuspects(s) <==> y in s
    decreases |s|
  {
    hide RefLess;
    if s != [] {
      var rest, last := s[..|s| - 1], s[|s| - 1];
      assert s == rest + [last];
      SortedSuspects(rest);
      InsertInOrder(SortSuspects(rest), last);
    }
  }

  // ---- Ends are the supplied leaves and nodes ----

  /** The leaf of a Segment tree at a position. */
  function LeafAt(ref: NodeRef): PhysicalAddress {
    LeafAddress(ref.tree, ref.position.index)
  }

  predicate IsLeaf(inp: Inputs, ref: NodeRef) {
    ref.tree.layer == LAYER_SEGMENT && ref.position.level == 0 && LeafAt(ref) in inp.leaves
  }

  /** A supplied leaf or authentication node of a planned tree. */
  predicate IsSupplied(inp: Inputs, ref: NodeRef) {
    ref.tree in inp.plans && (ref in inp.nodes || IsLeaf(inp, ref))
  }

  function SuppliedHash(inp: Inputs, ref: NodeRef): Digest
    requires IsSupplied(inp, ref)
  {
    if ref in inp.nodes then inp.nodes[ref] else inp.leaves[LeafAt(ref)]
  }

  lemma EndIs(inp: Inputs, t: TreeRef, e: Position)
    requires ValidInputs(inp) && t in inp.plans
    ensures IsEnd(TreeTrace(inp, t), e) <==>
      NodeRef(t, e) in inp.nodes || (e.level == 0 && e.index in KnownLeaves(inp, t))
    ensures NodeRef(t, e) in inp.nodes ==>
      TreeTrace(inp, t)[e] == inp.nodes[NodeRef(t, e)] && !(e.level == 0 && e.index in KnownLeaves(inp, t))
    ensures e.level == 0 && e.index in KnownLeaves(inp, t) ==> TreeTrace(inp, t)[e] == KnownLeaves(inp, t)[e.index]
  {
    hide Static, TargetsGiven, KnownLeaves, Foldable, FullTrace, Folded, TreeTrace, RawRootOf;
    TraceSound(inp, t);
    FoldEnd(inp.plans[t].leafCount, KnownLeaves(inp, t), NodesOf(inp.nodes, t), e);
  }

  lemma FoldEnd(n: nat, known: map<int, Digest>, proof: map<Position, Digest>, e: Position)
    requires Foldable(n, known, proof)
    ensures IsEnd(FullTrace(n, known, proof), e) <==> e in proof || (e.level == 0 && e.index in known)
    ensures e in proof ==> FullTrace(n, known, proof)[e] == proof[e] && !(e.level == 0 && e.index in known)
    ensures e.level == 0 && e.index in known ==> FullTrace(n, known, proof)[e] == known[e.index]
  {
    hide Active, Trace, Height, Width, NodeFolded, NeededSet, LocalizationProofs.InRow, Foldable, Computed, IsFullTrace;
    var m := FullTrace(n, known, proof);
    TraceFull(n, known, proof);
    if e in proof {
      NeededEnd(n, known, proof, m, e);
    } else if LocalizationProofs.InRow(n, known, e, Height(n)) {
      ActiveEnd(n, known, proof, m, e);
    } else {
      NotInTrace(n, known, proof, m, e);
    }
  }

  lemma TraceFull(n: nat, known: map<int, Digest>, proof: map<Position, Digest>)
    ensures IsFullTrace(n, known, proof, FullTrace(n, known, proof))
  {
    hide Trace, IsTraceTo;
    TraceIs(n, known, proof, Height(n));
  }

  lemma NotInTrace(n: nat, known: map<int, Digest>, proof: map<Position, Digest>, m: Nodes, e: Position)
    requires IsFullTrace(n, known, proof, m) && e !in proof && !LocalizationProofs.InRow(n, known, e, Height(n))
    ensures e !in m && !(e.level == 0 && e.index in known)
  {
    hide Height, Computed;
  }

  lemma NeededEnd(n: nat, known: map<int, Digest>, proof: map<Position, Digest>, m: Nodes, e: Position)
    requires Foldable(n, known, proof) && IsFullTrace(n, known, proof, m) && e in proof
    ensures IsEnd(m, e) && m[e] == proof[e] && !(e.level == 0 && e.index in known)
  {
    hide Height, Width, Computed;
    assert Needed(n, known.Keys, e);
    assert !LocalizationProofs.InRow(n, known, e, Height(n));
    if e.level > 0 { NothingBelow(n, known, proof, m, e, 2 * e.index); }
  }

  lemma ActiveEnd(n: nat, known: map<int, Digest>, proof: map<Position, Digest>, m: Nodes, e: Position)
    requires Foldable(n, known, proof) && IsFullTrace(n, known, proof, m) && e !in proof
    requires LocalizationProofs.InRow(n, known, e, Height(n))
    ensures IsEnd(m, e) <==> e.level == 0 && e.index in known
    ensures e.level == 0 ==> e.index in known && m[e] == known[e.index]
  {
    hide Height, Width, Foldable, Active, Computed, IsFullTrace, ChildValue, NeededSet;
    InTrace(n, known, proof, m, e);
    if e.level == 0 {
      BottomRow(n, known, proof);
    } else {
      FoldableTargets(n, known, proof);
      ActiveInRange(n, known.Keys, e.level);
      WidthHalf(n, e.level);
      ChildIn(n, known, proof, m, e.level - 1, 2 * e.index);
    }
  }

  lemma BottomRow(n: nat, known: map<int, Digest>, proof: map<Position, Digest>)
    ensures Computed(n, known, proof, 0) == known && Active(known.Keys, 0) == known.Keys
  {}

  lemma FoldableTargets(n: nat, known: map<int, Digest>, proof: map<Position, Digest>)
    requires Foldable(n, known, proof)
    ensures ValidTargets(n, known.Keys)
  {}

  /** The ends below the top of a trace are all its ends. */
  lemma {:induction false} BelowIsEnd(n: nat, m: Nodes, p: Position, e: Position)
    requires Folded(n, m) && p in m && e in EndsBelow(m, p)
    ensures IsEnd(m, e)
    decreases if p.level < 0 then 0 else p.level
  {
    hide Folded;
    if p.level > 0 && LeftChild(p) in m {
      if e in EndsBelow(m, LeftChild(p)) {
        BelowIsEnd(n, m, LeftChild(p), e);
      } else {
        BelowIsEnd(n, m, RightChild(p), e);
      }
    }
  }

  lemma TopEnds(n: nat, m: Nodes, e: Position)
    requires Folded(n, m)
    ensures BelowActive(m, [Position(Height(n), 0)], e) <==> IsEnd(m, e)
  {
    hide Folded, EndsBelow;
    var top := Position(Height(n), 0);
    TopTraced(n, m);
    assert top in [top];
    if BelowActive(m, [top], e) { BelowIsEnd(n, m, top, e); }
    if IsEnd(m, e) {
      EndAtItself(m, e);
      EndsAbove(n, m, e, e);
    }
  }

  lemma EndAtItself(m: Nodes, e: Position)
    requires IsEnd(m, e)
    ensures e in EndsBelow(m, e)
  {}

  // ---- Exactness ----

  /** The same trees, links and addresses; only hashes may differ. */
  ghost predicate SamePlan(a: Inputs, b: Inputs) {
    a.plans == b.plans && a.children == b.children && forall l :: l in a.leaves <==> l in b.leaves
  }

  predicate DiffersIn(a: Inputs, b: Inputs, ref: NodeRef) {
    IsSupplied(a, ref) && IsSupplied(b, ref) && SuppliedHash(a, ref) != SuppliedHash(b, ref)
  }

  function ExpectedSuspect(a: Inputs, b: Inputs, ref: NodeRef): Suspect
    requires IsSupplied(a, ref) && IsSupplied(b, ref)
  {
    if IsLeaf(a, ref)
    then Suspect(ref, Some(LeafAt(ref)), SuppliedHash(a, ref), SuppliedHash(b, ref), LeafMismatch)
    else Suspect(ref, None, SuppliedHash(a, ref), SuppliedHash(b, ref), AuthenticationNodeMismatch)
  }

  ghost predicate IsExpected(a: Inputs, b: Inputs, s: Suspect) {
    DiffersIn(a, b, s.ref) && s == ExpectedSuspect(a, b, s.ref)
  }

  /** Two accepted proofs of the same plan for the same addresses, hashing without collision. */
  ghost predicate Comparable(auditor: Evidence, reference: Evidence, addresses: seq<PhysicalAddress>) {
    && Accepted(auditor) && Accepted(reference) && SamePlan(auditor.inputs, reference.inputs)
    && (forall l :: l in auditor.inputs.leaves <==> l in addresses)
    && !Collide(RunPreimages(auditor.inputs), RunPreimages(reference.inputs))
  }

  /** Localization is exact: for two accepted proofs with the same plan it reports every supplied
      leaf and authentication node whose hash differs, once, in order, and nothing else, in
      particular no changed child root of an upper tree; or the hash collides. */
  lemma Exact(auditor: Evidence, reference: Evidence, addresses: seq<PhysicalAddress>, k: int)
    requires k >= 1 && Accepted(auditor) && Accepted(reference) && SamePlan(auditor.inputs, reference.inputs)
    requires forall l :: l in auditor.inputs.leaves <==> l in addresses
    ensures
      || Collide(RunPreimages(auditor.inputs), RunPreimages(reference.inputs))
      || ((forall s :: s in AnalysisOf(auditor, reference, addresses, k).suspects
                       <==> IsExpected(auditor.inputs, reference.inputs, s))
          && InOrder(AnalysisOf(auditor, reference, addresses, k).suspects))
  {
    hide PlansValid, NodesPlanned, LinksValid, AllLinked, TargetsGiven, IsTraceOf, SamePlan, RunPreimages, IsExpected,
      TreeSuspects, AllSuspects, AllRounds, BadShards, InOrder, Collide, InTreeSuspects, DistinctRefs;
    if !Collide(RunPreimages(auditor.inputs), RunPreimages(reference.inputs)) {
      var trees := UnionTrees(auditor, reference);
      TreesDistinct(auditor, reference);
      AllDistinct(auditor, reference, addresses, k, trees);
      SortedSuspects(AllSuspects(auditor, reference, addresses, k, trees));
      forall s ensures InTreeSuspects(auditor, reference, addresses, k, trees, s) <==>
        IsExpected(auditor.inputs, reference.inputs, s) {
        SuspectExact(auditor, reference, addresses, k, s);
      }
    }
  }

  lemma TreesDistinct(auditor: Evidence, reference: Evidence)
    ensures Distinct(UnionTrees(auditor, reference))
    ensures forall t :: t in UnionTrees(auditor, reference) <==>
      t in auditor.inputs.plans || t in reference.inputs.plans
  {
    hide TreeRefLess;
    TreeRefOrder();
    var trees := UnionTrees(auditor, reference);
    forall i, j | 0 <= i < j < |trees| ensures trees[i] != trees[j] { assert TreeRefLess(trees[i], trees[j]); }
  }

  lemma SuspectExact(auditor: Evidence, reference: Evidence, addresses: seq<PhysicalAddress>, k: int, s: Suspect)
    requires k >= 1 && Comparable(auditor, reference, addresses)
    ensures InTreeSuspects(auditor, reference, addresses, k, UnionTrees(auditor, reference), s)
       <==> IsExpected(auditor.inputs, reference.inputs, s)
  {
    hide Accepted, RunPreimages, TreeSuspects, Collide, ExpectedSuspect;
    TreesDistinct(auditor, reference);
    if s.ref.tree in auditor.inputs.plans { TreeExact(auditor, reference, addresses, k, s); }
  }

  lemma TreeExact(auditor: Evidence, reference: Evidence, addresses: seq<PhysicalAddress>, k: int, s: Suspect)
    requires k >= 1 && Comparable(auditor, reference, addresses) && s.ref.tree in auditor.inputs.plans
    ensures s in TreeSuspects(auditor, reference, addresses, k, s.ref.tree) <==>
      IsExpected(auditor.inputs, reference.inputs, s)
  {
    hide Accepted, RunPreimages, Collide, IsExpected, Found, Comparable, SameTree, Reports, ContextOf;
    var t := s.ref.tree;
    SameTraces(auditor, reference, addresses, t);
    if RootsMatch(auditor, reference, t) {
      NothingDiffers(auditor, reference, addresses, s);
    } else {
      ShapesSame(auditor, reference, addresses, t);
      var n := auditor.inputs.plans[t].leafCount;
      var c := ContextOf(auditor, reference, addresses, t);
      StartsAt(Height(n));
      TopIn(auditor, reference, addresses, t);
      assert forall p :: p in [Position(Height(n), 0)] ==> p in c.left;
      SearchExact(c, n, [Position(Height(n), 0)], Height(n), k, s);
      ReportsExpected(auditor, reference, addresses, s);
    }
  }

  /** The context's two traces have the same nodes and hash without collision. */
  lemma SameTraces(auditor: Evidence, reference: Evidence, addresses: seq<PhysicalAddress>, t: TreeRef)
    requires Comparable(auditor, reference, addresses) && t in auditor.inputs.plans
    ensures auditor.inputs.plans[t].leafCount > 0
    ensures var c := ContextOf(auditor, reference, addresses, t);
      SameTree(auditor.inputs.plans[t].leafCount, c.left, c.right)
  {
    hide PlansValid, NodesPlanned, LinksValid, AllLinked, TargetsGiven, IsTraceOf, RunPreimages, Folded, TreeTrace,
      NodesOf, AddressByNode, PairsOf, CommittedRoot, Collide, Within, SamePlan;
    PlansShared(auditor.inputs, reference.inputs);
    TracedTree(auditor, t);
    TracedTree(reference, t);
    PairsHashed(auditor, t);
    PairsHashed(reference, t);
    TraceKeys(auditor.inputs, reference.inputs, t);
    NoCollisionWithin(PairsOf(TreeTrace(auditor.inputs, t)), PairsOf(TreeTrace(reference.inputs, t)),
                      RunPreimages(auditor.inputs), RunPreimages(reference.inputs));
  }

  lemma PlansShared(a: Inputs, b: Inputs)
    requires SamePlan(a, b)
    ensures a.plans == b.plans
  {}

  lemma NoCollisionWithin(a: set<Preimage>, b: set<Preimage>, ours: set<Preimage>, theirs: set<Preimage>)
    requires Within(a, ours) && Within(b, theirs) && !Collide(ours, theirs)
    ensures !Collide(a, b)
  {}

  lemma ShapesSame(auditor: Evidence, reference: Evidence, addresses: seq<PhysicalAddress>, t: TreeRef)
    requires Comparable(auditor, reference, addresses) && t in auditor.inputs.plans
    ensures SameShape(auditor, reference, t) && ShapeCount(auditor.inputs, t) == auditor.inputs.plans[t].leafCount > 0
    ensures TreeHeightOf(ShapeCount(auditor.inputs, t)) == Height(auditor.inputs.plans[t].leafCount)
  {
    hide Accepted, RunPreimages, Collide, Folded, TreeTrace, NodesOf, CommittedRoot;
    TracedTree(auditor, t);
    TracedTree(reference, t);
  }

  lemma TopIn(auditor: Evidence, reference: Evidence, addresses: seq<PhysicalAddress>, t: TreeRef)
    requires Comparable(auditor, reference, addresses) && t in auditor.inputs.plans
    requires auditor.inputs.plans[t].leafCount > 0
    ensures Position(Height(auditor.inputs.plans[t].leafCount), 0) in ContextOf(auditor, reference, addresses, t).left
  {
    hide Accepted, RunPreimages, Collide, Folded, TreeTrace, NodesOf, CommittedRoot, AddressByNode, Height;
    TracedTree(auditor, t);
    TopTraced(auditor.inputs.plans[t].leafCount, NodesOf(auditor.trace.nodes, t));
  }

  lemma PairsHashed(e: Evidence, t: TreeRef)
    requires Accepted(e) && t in e.inputs.plans
    ensures Within(PairsOf(TreeTrace(e.inputs, t)), RunPreimages(e.inputs))
  {
    hide Static, TargetsGiven, IsTraceOf, KnownLeaves, NodesOf, Foldable, FullTrace, Folded, RawRootOf, TreeTrace,
      PairsOf, RunPreimages, T.FoldPreimages;
    TraceSound(e.inputs, t);
    PlanHashed(e.inputs, t);
    FoldPairs(e.inputs.plans[t].leafCount, KnownLeaves(e.inputs, t), NodesOf(e.inputs.nodes, t));
  }

  lemma FoldPairs(n: nat, known: map<int, Digest>, proof: map<Position, Digest>)
    requires Foldable(n, known, proof)
    ensures Within(PairsOf(FullTrace(n, known, proof)), T.FoldPreimages(n, known, proof))
  {
    hide FullTrace, T.FoldPreimages, Foldable;
    var m := FullTrace(n, known, proof);
    forall x | x in PairsOf(m) ensures x in T.FoldPreimages(n, known, proof) {
      var p :| p in m && LeftChild(p) in m && RightChild(p) in m && p.level > 0
        && x == NodePair(m[LeftChild(p)], m[RightChild(p)]);
      PairHashed(n, known, proof, p);
    }
  }

  lemma PairHashed(n: nat, known: map<int, Digest>, proof: map<Position, Digest>, p: Position)
    requires Foldable(n, known, proof)
    requires var m := FullTrace(n, known, proof); p in m && LeftChild(p) in m && RightChild(p) in m && p.level > 0
    ensures var m := FullTrace(n, known, proof);
      NodePair(m[LeftChild(p)], m[RightChild(p)]) in T.FoldPreimages(n, known, proof)
  {
    hide FullTrace, T.FoldPreimages, Foldable, Folded, Computed, ChildValue, Active, Width, Height, IsFullTrace,
      NodeFolded;
    var m := FullTrace(n, known, proof);
    TraceFull(n, known, proof);
    TraceFolded(n, known, proof);
    InnerActive(n, known, proof, m, p);
    ChildIn(n, known, proof, m, p.level - 1, 2 * p.index);
    ChildIn(n, known, proof, m, p.level - 1, 2 * p.index + 1);
    assert T.FoldPair(n, known, proof, p) == NodePair(m[LeftChild(p)], m[RightChild(p)]);
    T.FoldPairHashed(n, known, proof, p);
  }

  /** A traced node with children was recomputed. */
  lemma InnerActive(n: nat, known: map<int, Digest>, proof: map<Position, Digest>, m: Nodes, p: Position)
    requires Foldable(n, known, proof) && IsFullTrace(n, known, proof, m) && Folded(n, m)
    requires p in m && RightChild(p) in m && LeftChild(p) in m && p.level > 0
    ensures p.index in Active(known.Keys, p.level) && HasTwoChildren(n, p) && p.level <= Height(n)
  {
    hide Foldable, Computed, Active, Width, Height, Folded, IsFullTrace;
    FoldedAt(n, m, p);
    if p.index !in Active(known.Keys, p.level) { NothingBelow(n, known, proof, m, p, 2 * p.index); }
  }

  lemma FoldedAt(n: nat, m: Nodes, p: Position)
    requires Folded(n, m) && p in m
    ensures NodeFolded(n, m, p)
  {
    hide NodeFolded;
  }

  /** The nodes of a trace depend on the plan only. */
  lemma TraceKeys(a: Inputs, b: Inputs, t: TreeRef)
    requires ValidInputs(a) && ValidInputs(b) && SamePlan(a, b) && t in a.plans
    ensures TreeTrace(a, t).Keys == TreeTrace(b, t).Keys
  {
    hide PlansValid, LinksValid, AllLinked, TargetsGiven, KnownLeaves, Foldable, FullTrace, Folded, RawRootOf,
      TreeTrace, IsFullTrace, NodesPlanned;
    TraceSound(a, t);
    TraceSound(b, t);
    var n := a.plans[t].leafCount;
    assert GivenTargets(a, t) == GivenTargets(b, t);
    forall p ensures p in NodesOf(a.nodes, t) <==> p in NodesOf(b.nodes, t) {
      PlannedNode(a, t, p);
      PlannedNode(b, t, p);
    }
    FullKeys(n, KnownLeaves(a, t), KnownLeaves(b, t), NodesOf(a.nodes, t), NodesOf(b.nodes, t));
  }

  lemma FullKeys(n: nat, known: map<int, Digest>, known': map<int, Digest>, proof: map<Position, Digest>,
                 proof': map<Position, Digest>)
    requires known.Keys == known'.Keys && forall p :: p in proof <==> p in proof'
    ensures FullTrace(n, known, proof).Keys == FullTrace(n, known', proof').Keys
  {
    hide FullTrace, Height, Active, Computed;
    TraceFull(n, known, proof);
    TraceFull(n, known', proof');
  }

  /** Trees with equal committed roots supply equal hashes. */
  lemma NothingDiffers(auditor: Evidence, reference: Evidence, addresses: seq<PhysicalAddress>, s: Suspect)
    requires Comparable(auditor, reference, addresses) && s.ref.tree in auditor.inputs.plans
    requires RootsMatch(auditor, reference, s.ref.tree)
    ensures !IsExpected(auditor.inputs, reference.inputs, s)
  {
    hide Accepted, RunPreimages, Collide, SameTree, ContextOf, TreeTrace, KnownLeaves, SuppliedHash, RootsMatch;
    var t := s.ref.tree;
    TopsEqual(auditor, reference, addresses, t);
    if IsSupplied(auditor.inputs, s.ref) && IsSupplied(reference.inputs, s.ref) {
      SuppliedEnd(auditor, s.ref);
      SuppliedEnd(reference, s.ref);
    }
  }

  /** A supplied hash is an end of its tree's trace. */
  lemma SuppliedEnd(e: Evidence, ref: NodeRef)
    requires Accepted(e) && IsSupplied(e.inputs, ref)
    ensures IsEnd(TreeTrace(e.inputs, ref.tree), ref.position) && ref.position in TreeTrace(e.inputs, ref.tree)
    ensures TreeTrace(e.inputs, ref.tree)[ref.position] == SuppliedHash(e.inputs, ref)
    ensures IsLeaf(e.inputs, ref) ==> ref !in e.inputs.nodes
  {
    hide Static, TargetsGiven, IsTraceOf, KnownLeaves, TreeTrace;
    EndIs(e.inputs, ref.tree, ref.position);
    assert ref == NodeRef(ref.tree, ref.position);
    if IsLeaf(e.inputs, ref) {
      assert SegmentOf(LeafAt(ref)) == ref.tree;
      assert ref.position.index in GivenTargets(e.inputs, ref.tree);
    }
  }

  /** An end that is not supplied is the leaf of an upper tree, holding a child's root. */
  lemma EndSupplied(e: Evidence, t: TreeRef, p: Position)
    requires Accepted(e) && t in e.inputs.plans && IsEnd(TreeTrace(e.inputs, t), p)
    ensures IsSupplied(e.inputs, NodeRef(t, p))
         || (t.layer != LAYER_SEGMENT && p.level == 0 && Slot(t, p.index) in e.inputs.children)
  {
    hide Static, TargetsGiven, IsTraceOf, TreeTrace, KnownLeaves;
    EndIs(e.inputs, t, p);
  }

  /** A supplied node is not below a child's root. */
  lemma SuppliedNoChild(e: Evidence, ref: NodeRef)
    requires Accepted(e) && IsSupplied(e.inputs, ref) && ref.position.level == 0
    ensures Slot(ref.tree, ref.position.index) !in e.inputs.children
  {
    hide Static, TargetsGiven, IsTraceOf, TreeTrace, KnownLeaves;
    EndIs(e.inputs, ref.tree, ref.position);
    assert ref == NodeRef(ref.tree, ref.position);
    var slot := Slot(ref.tree, ref.position.index);
    if slot in e.inputs.children {
      LinkFound(e.inputs, slot);
      GivenLeaf(e.inputs, slot);
    }
  }

  /** A child's root that differs is explained by the child. */
  lemma ChildExplains(auditor: Evidence, reference: Evidence, s: Slot)
    requires Accepted(auditor) && Accepted(reference) && SamePlan(auditor.inputs, reference.inputs)
    requires s in auditor.inputs.children && s.parent in auditor.inputs.plans && s.parent.layer != LAYER_SEGMENT
    requires Differs(TreeTrace(auditor.inputs, s.parent), TreeTrace(reference.inputs, s.parent), Position(0, s.index))
    ensures ChildMismatch(auditor, reference, s.parent, s.index)
  {
    hide Accepted, TreeTrace, KnownLeaves, CommittedRoot;
    assert s == Slot(s.parent, s.index);
    ChildRootTraced(auditor, s);
    ChildRootTraced(reference, s);
  }

  lemma ChildRootTraced(e: Evidence, s: Slot)
    requires Accepted(e) && s in e.inputs.children && s.parent in e.inputs.plans && s.parent.layer != LAYER_SEGMENT
    ensures e.inputs.children[s] in e.trace.committedRoots
    ensures Position(0, s.index) in TreeTrace(e.inputs, s.parent)
    ensures TreeTrace(e.inputs, s.parent)[Position(0, s.index)] == e.trace.committedRoots[e.inputs.children[s]]
  {
    hide Static, TargetsGiven, TreeTrace, KnownLeaves, CommittedRoot, RawRootOf;
    var c := e.inputs.children[s];
    assert s == Slot(s.parent, s.index);
    LinkFound(e.inputs, s);
    GivenLeaf(e.inputs, s);
    EndIs(e.inputs, s.parent, Position(0, s.index));
    KnownLayer(e.inputs, c);
    assert TreeEvaluated(e.inputs, c, e.trace.rawRoots[c], e.trace.committedRoots[c]);
    CommittedRootIs(c, e.inputs.plans[c].leafCount, RawRootOf(e.inputs, c));
  }

  /** Trees with equal committed roots have equal ends. */
  lemma TopsEqual(auditor: Evidence, reference: Evidence, addresses: seq<PhysicalAddress>, t: TreeRef)
    requires Comparable(auditor, reference, addresses) && t in auditor.inputs.plans && RootsMatch(auditor, reference, t)
    ensures forall e :: IsEnd(TreeTrace(auditor.inputs, t), e) ==>
      !Differs(TreeTrace(auditor.inputs, t), TreeTrace(reference.inputs, t), e)
  {
    hide Accepted, RunPreimages, Collide, SameTree, TreeTrace, IsEnd, BelowActive, RawRootOf, NodesOf, EndsBelow;
    SameTraces(auditor, reference, addresses, t);
    TracedTree(auditor, t);
    TracedTree(reference, t);
    var n, left, right := auditor.inputs.plans[t].leafCount, TreeTrace(auditor.inputs, t),
      TreeTrace(reference.inputs, t);
    var top := Position(Height(n), 0);
    RawRootsEqual(auditor, reference, addresses, t);
    SameKeys(n, left, right);
    PrunedEqual(n, left, right, top);
    forall e | IsEnd(left, e) ensures !Differs(left, right, e) {
      TopEnds(n, left, e);
      EndBelowTop(left, top, e);
    }
  }

  lemma EndBelowTop(m: Nodes, top: Position, e: Position)
    requires BelowActive(m, [top], e)
    ensures e in EndsBelow(m, top)
  {
    hide EndsBelow;
  }

  /** Equal committed roots have equal raw roots. */
  lemma RawRootsEqual(auditor: Evidence, reference: Evidence, addresses: seq<PhysicalAddress>, t: TreeRef)
    requires Comparable(auditor, reference, addresses) && t in auditor.inputs.plans && RootsMatch(auditor, reference, t)
    ensures var top := Position(Height(auditor.inputs.plans[t].leafCount), 0);
      && top in TreeTrace(auditor.inputs, t) && top in TreeTrace(reference.inputs, t)
      && TreeTrace(auditor.inputs, t)[top] == TreeTrace(reference.inputs, t)[top]
  {
    hide Static, TargetsGiven, TreeTrace, RunPreimages, CommittedRoot, RawRootOf, Commitment, Folded, KnownLeaves,
      Foldable;
    TraceSound(auditor.inputs, t);
    TraceSound(reference.inputs, t);
    TopTraced(auditor.inputs.plans[t].leafCount, TreeTrace(auditor.inputs, t));
    TopTraced(auditor.inputs.plans[t].leafCount, TreeTrace(reference.inputs, t));
    PlanHashed(auditor.inputs, t);
    PlanHashed(reference.inputs, t);
    assert TreeEvaluated(auditor.inputs, t, auditor.trace.rawRoots[t], auditor.trace.committedRoots[t]);
    assert TreeEvaluated(reference.inputs, t, reference.trace.rawRoots[t], reference.trace.committedRoots[t]);
    KnownLayer(auditor.inputs, t);
    CommittedRootIs(t, auditor.inputs.plans[t].leafCount, RawRootOf(auditor.inputs, t));
    CommittedRootIs(t, auditor.inputs.plans[t].leafCount, RawRootOf(reference.inputs, t));
    RawRootBound(t, auditor.inputs.plans[t].leafCount, RawRootOf(auditor.inputs, t), RawRootOf(reference.inputs, t));
  }

  lemma RawRootBound(t: TreeRef, n: int, r: Digest, q: Digest)
    ensures Commitment(t, n, r) == Commitment(t, n, q) ==> r == q
  {}

  /** The search's reports are the expected suspects. */
  lemma ReportsExpected(auditor: Evidence, reference: Evidence, addresses: seq<PhysicalAddress>, s: Suspect)
    requires Comparable(auditor, reference, addresses) && s.ref.tree in auditor.inputs.plans
    requires auditor.inputs.plans[s.ref.tree].leafCount > 0
    ensures var top := Position(Height(auditor.inputs.plans[s.ref.tree].leafCount), 0);
      Reports(ContextOf(auditor, reference, addresses, s.ref.tree), [top], s) <==>
        IsExpected(auditor.inputs, reference.inputs, s)
  {
    hide Accepted, RunPreimages, Collide, TreeTrace, IsEnd, BelowActive, NodesOf, IsSupplied, SuppliedHash,
      ChildMismatch, SuspectFor, ExpectedSuspect, AddressByNode, Folded, CommittedRoot;
    var t, e, a, b := s.ref.tree, s.ref.position, auditor.inputs, reference.inputs;
    TracedTree(auditor, t);
    TracedTree(reference, t);
    TopEnds(a.plans[t].leafCount, TreeTrace(a, t), e);
    SuppliedShared(auditor, reference, addresses, s.ref);
    if IsSupplied(a, s.ref) {
      SuppliedEnd(auditor, s.ref);
      SuppliedEnd(reference, s.ref);
      if e.level == 0 {
        SuppliedNoChild(reference, s.ref);
        NoChildMismatch(auditor, reference, t, e.index);
      }
      SuspectForSupplied(auditor, reference, addresses, s.ref);
    } else if IsEnd(TreeTrace(a, t), e) && Differs(TreeTrace(a, t), TreeTrace(b, t), e) {
      EndSupplied(auditor, t, e);
      ChildExplains(auditor, reference, Slot(t, e.index));
    }
  }

  lemma NoChildMismatch(auditor: Evidence, reference: Evidence, t: TreeRef, i: int)
    requires Slot(t, i) !in reference.inputs.children
    ensures !ChildMismatch(auditor, reference, t, i)
  {}

  lemma SuppliedShared(auditor: Evidence, reference: Evidence, addresses: seq<PhysicalAddress>, ref: NodeRef)
    requires Comparable(auditor, reference, addresses) && ref.tree in auditor.inputs.plans
    ensures IsSupplied(auditor.inputs, ref) <==> IsSupplied(reference.inputs, ref)
    ensures IsLeaf(auditor.inputs, ref) <==> IsLeaf(reference.inputs, ref)
  {
    hide PlansValid, LinksValid, AllLinked, NodesPlanned, TargetsGiven, IsTraceOf, RunPreimages, Collide;
    assert ref == NodeRef(ref.tree, ref.position);
    PlannedNode(auditor.inputs, ref.tree, ref.position);
    PlannedNode(reference.inputs, ref.tree, ref.position);
  }

  lemma SuspectForSupplied(auditor: Evidence, reference: Evidence, addresses: seq<PhysicalAddress>, ref: NodeRef)
    requires Comparable(auditor, reference, addresses)
    requires IsSupplied(auditor.inputs, ref) && IsSupplied(reference.inputs, ref)
      && (IsLeaf(auditor.inputs, ref) <==> IsLeaf(reference.inputs, ref))
    requires var l, r := NodesOf(auditor.trace.nodes, ref.tree), NodesOf(reference.trace.nodes, ref.tree);
      && ref.position in l && ref.position in r
      && l[ref.position] == SuppliedHash(auditor.inputs, ref) && r[ref.position] == SuppliedHash(reference.inputs, ref)
    ensures SuspectFor(ContextOf(auditor, reference, addresses, ref.tree), ref.position)
         == ExpectedSuspect(auditor.inputs, reference.inputs, ref)
  {
    hide Accepted, RunPreimages, Collide, SuppliedHash, NodesOf;
    AddressListed(addresses, ref);
  }

  lemma AddressListed(addresses: seq<PhysicalAddress>, ref: NodeRef)
    ensures ref in AddressByNode(addresses) <==>
      ref.tree.layer == LAYER_SEGMENT && ref.position.level == 0 && LeafAt(ref) in addresses
    ensures ref in AddressByNode(addresses) ==> AddressByNode(addresses)[ref] == LeafAt(ref)
  {
    var m := AddressByNode(addresses);
    assert ref == NodeRef(ref.tree, ref.position);
    assert forall l: PhysicalAddress :: LeafAt(LeafRef(l)) == l;
    if ref.tree.layer == LAYER_SEGMENT && ref.position.level == 0 { assert LeafRef(LeafAt(ref)) == ref; }
  }
}
