/** Tamper localization (internal/localization/analyze.go): a search down two proof traces,
    k levels at a time, for the supplied nodes in which they differ. */
module Localization {
  import opened Hashing
  import opened Merkle
  import opened Sorting
  import opened ProofTypes
  import opened ProofInputs
  import opened Planner
  import opened ProofBuilding
  import opened Verifier

  datatype NodeComparison = NodeComparison(ref: NodeRef, auditorHash: Digest, referenceHash: Digest, isMatch: bool)

  datatype PruningRound = PruningRound(tree: TreeRef, fromLevel: int, targetLevel: int,
                                       comparisons: seq<NodeComparison>)

  datatype Classification = LeafMismatch | AuthenticationNodeMismatch | TopologyMismatch

  datatype Suspect = Suspect(
    ref: NodeRef, address: Option<PhysicalAddress>, auditorHash: Digest, referenceHash: Digest,
    classification: Classification)

  /** An accepted proof with its trace. */
  datatype Evidence = Evidence(inputs: Inputs, trace: ProofTrace)

  datatype Analysis = Analysis(badShards: seq<TreeRef>, rounds: seq<PruningRound>, suspects: seq<Suspect>)

  type Nodes = map<Position, Digest>

  // ---- Comparing nodes ----

  function HashAt(nodes: Nodes, p: Position): Digest {
    if p in nodes then nodes[p] else 0
  }

  predicate Matches(left: Nodes, right: Nodes, p: Position) {
    p in left && p in right && left[p] == right[p]
  }

  function LeftChild(p: Position): Position {
    Position(p.level - 1, p.index * 2)
  }

  function RightChild(p: Position): Position {
    Position(p.level - 1, p.index * 2 + 1)
  }

  /** Both traces hold nodes below this one. */
  predicate CanDescend(left: Nodes, right: Nodes, p: Position) {
    p.level > 0 && LeftChild(p) in left && LeftChild(p) in right
  }

  /** The nodes below `p` at the target level, and those above it that have nothing below. */
  function Frontier(left: Nodes, right: Nodes, p: Position, target: int): set<Position>
    decreases if p.level < 0 then 0 else p.level
  {
    if p.level <= target || !CanDescend(left, right, p) then {p}
    else
      (if LeftChild(p) in left || LeftChild(p) in right then Frontier(left, right, LeftChild(p), target) else {})
      + (if RightChild(p) in left || RightChild(p) in right then Frontier(left, right, RightChild(p), target) else {})
  }

  method CollectFrontier(left: Nodes, right: Nodes, p: Position, target: int,
                         result0: set<Position>) returns (result: set<Position>)
    ensures result == result0 + Frontier(left, right, p, target)
    decreases if p.level < 0 then 0 else p.level
  {
    if p.level <= target || !CanDescend(left, right, p) { return result0 + {p}; }
    result := result0;
    if LeftChild(p) in left || LeftChild(p) in right {
      result := CollectFrontier(left, right, LeftChild(p), target, result);
    }
    if RightChild(p) in left || RightChild(p) in right {
      result := CollectFrontier(left, right, RightChild(p), target, result);
    }
  }

  function FrontierOf(left: Nodes, right: Nodes, active: seq<Position>, target: int): set<Position> {
    if active == [] then {}
    else FrontierOf(left, right, active[..|active| - 1], target) + Frontier(left, right, active[|active| - 1], target)
  }

  /** Higher levels first. */
  predicate HigherFirst(a: Position, b: Position) {
    a.level > b.level || (a.level == b.level && a.index < b.index)
  }

  lemma HigherFirstOrder()
    ensures StrictOrder(HigherFirst)
  {}

  function SortedPositions(s: set<Position>): (r: seq<Position>)
    ensures Sorted(HigherFirst, r) && SameElements(r, s) && |r| == |s|
  {
    HigherFirstOrder();
    SortSet(HigherFirst, s)
  }

  // ---- What a compared node gives ----

  predicate RootsMatch(auditor: Evidence, reference: Evidence, t: TreeRef) {
    && t in auditor.trace.committedRoots && t in reference.trace.committedRoots
    && auditor.trace.committedRoots[t] == reference.trace.committedRoots[t]
  }

  /** The mismatch of an upper tree's leaf lies in the tree below it. */
  predicate ChildMismatch(auditor: Evidence, reference: Evidence, t: TreeRef, index: int) {
    var s := Slot(t, index);
    s in reference.inputs.children && !RootsMatch(auditor, reference, reference.inputs.children[s])
  }

  function AddressByNode(addresses: seq<PhysicalAddress>): map<NodeRef, PhysicalAddress> {
    map a | a in addresses :: LeafRef(a) := a
  }

  /** The search in one tree. */
  datatype Context = Context(
    auditor: Evidence, reference: Evidence, tree: TreeRef, left: Nodes, right: Nodes,
    addresses: map<NodeRef, PhysicalAddress>)

  function Compare(c: Context, p: Position): NodeComparison {
    NodeComparison(NodeRef(c.tree, p), HashAt(c.left, p), HashAt(c.right, p), Matches(c.left, c.right, p))
  }

  /** A mismatching node that nothing below it explains. */
  predicate IsSuspect(c: Context, p: Position) {
    && !Matches(c.left, c.right, p)
    && if p.level == 0 then !ChildMismatch(c.auditor, c.reference, c.tree, p.index) else !CanDescend(c.left, c.right, p)
  }

  function SuspectFor(c: Context, p: Position): Suspect {
    var ref := NodeRef(c.tree, p);
    if p.level == 0 && ref in c.addresses
    then Suspect(ref, Some(c.addresses[ref]), HashAt(c.left, p), HashAt(c.right, p), LeafMismatch)
    else Suspect(ref, None, HashAt(c.left, p), HashAt(c.right, p), AuthenticationNodeMismatch)
  }

  /** A mismatching node to search below. */
  predicate IsNext(c: Context, p: Position) {
    !Matches(c.left, c.right, p) && p.level != 0 && CanDescend(c.left, c.right, p)
  }

  function Comparisons(c: Context, frontier: seq<Position>): (r: seq<NodeComparison>)
    ensures |r| == |frontier|
  {
    seq(|frontier|, i requires 0 <= i < |frontier| => Compare(c, frontier[i]))
  }

  function SuspectsOf(c: Context, frontier: seq<Position>): seq<Suspect> {
    if frontier == [] then [] else
      var last := frontier[|frontier| - 1];
      SuspectsOf(c, frontier[..|frontier| - 1]) + if IsSuspect(c, last) then [SuspectFor(c, last)] else []
  }

  function NextOf(c: Context, frontier: seq<Position>): (r: seq<Position>)
    ensures forall p :: p in r <==> p in frontier && IsNext(c, p)
  {
    if frontier == [] then [] else
      var last := frontier[|frontier| - 1];
      assert frontier == frontier[..|frontier| - 1] + [last];
      NextOf(c, frontier[..|frontier| - 1]) + if IsNext(c, last) then [last] else []
  }

  predicate AllAt(active: seq<Position>, level: int) {
    forall p :: p in active ==> p.level == level
  }

  function TargetLevel(level: int, k: int): int {
    if level - k < 0 then 0 else level - k
  }

  /** All nodes to search below lie on the target level. */
  lemma NextLevel(c: Context, active: seq<Position>, level: nat, k: int)
    requires k >= 1 && AllAt(active, level)
    ensures AllAt(NextOf(c, SortedPositions(FrontierOf(c.left, c.right, active, TargetLevel(level, k)))),
                  TargetLevel(level, k))
    ensures level == 0 ==> NextOf(c, SortedPositions(FrontierOf(c.left, c.right, active, TargetLevel(level, k)))) == []
  {
    var target := TargetLevel(level, k);
    var frontier := SortedPositions(FrontierOf(c.left, c.right, active, target));
    forall p | p in NextOf(c, frontier) ensures p.level == target && level > 0 {
      assert p in frontier;
      FrontierLevels(c.left, c.right, active, level, target, p);
    }
    assert NextOf(c, frontier) != [] ==> NextOf(c, frontier)[0] in NextOf(c, frontier);
  }

  lemma {:induction false} FrontierLevels(left: Nodes, right: Nodes, active: seq<Position>, level: nat, target: int,
                                          p: Position)
    requires AllAt(active, level) && 0 <= target <= level && p in FrontierOf(left, right, active, target)
    ensures target <= p.level <= level && (p.level > target ==> !CanDescend(left, right, p))
    decreases |active|
  {
    var rest, last := active[..|active| - 1], active[|active| - 1];
    if p in Frontier(left, right, last, target) {
      assert last in active;
      FrontierLevel(left, right, last, target, p);
    } else {
      FrontierLevels(left, right, rest, level, target, p);
    }
  }

  lemma {:induction false} FrontierLevel(left: Nodes, right: Nodes, from: Position, target: int, p: Position)
    requires 0 <= target <= from.level && p in Frontier(left, right, from, target)
    ensures target <= p.level <= from.level && (p.level > target ==> !CanDescend(left, right, p))
    decreases from.level
  {
    if from.level > target && CanDescend(left, right, from) {
      if p in Frontier(left, right, LeftChild(from), target) {
        FrontierLevel(left, right, LeftChild(from), target, p);
      } else {
        FrontierLevel(left, right, RightChild(from), target, p);
      }
    }
  }

  // ---- The search in one tree ----

  function Round(c: Context, level: int, target: int, frontier: seq<Position>): seq<PruningRound> {
    if frontier == [] then [] else [PruningRound(c.tree, level, target, Comparisons(c, frontier))]
  }

  function Rounds(c: Context, active: seq<Position>, level: nat, k: int): seq<PruningRound>
    requires k >= 1 && AllAt(active, level)
    decreases level, |active|
  {
    if active == [] then [] else
      var target := TargetLevel(level, k);
      var frontier := SortedPositions(FrontierOf(c.left, c.right, active, target));
      NextLevel(c, active, level, k);
      Round(c, level, target, frontier) + if level == 0 then [] else Rounds(c, NextOf(c, frontier), target, k)
  }

  function Found(c: Context, active: seq<Position>, level: nat, k: int): seq<Suspect>
    requires k >= 1 && AllAt(active, level)
    decreases level, |active|
  {
    if active == [] then [] else
      var target := TargetLevel(level, k);
      var frontier := SortedPositions(FrontierOf(c.left, c.right, active, target));
      NextLevel(c, active, level, k);
      SuspectsOf(c, frontier) + if level == 0 then [] else Found(c, NextOf(c, frontier), target, k)
  }

  /** One round of the search, then the rest below. */
  lemma SearchStep(c: Context, active: seq<Position>, level: nat, k: int)
    requires k >= 1 && AllAt(active, level) && active != []
    ensures var target := TargetLevel(level, k);
      var frontier := SortedPositions(FrontierOf(c.left, c.right, active, target));
      && AllAt(NextOf(c, frontier), target) && (level == 0 ==> NextOf(c, frontier) == []) && active[0].level == level
      && Rounds(c, active, level, k) == Round(c, level, target, frontier) + Rounds(c, NextOf(c, frontier), target, k)
      && Found(c, active, level, k) == SuspectsOf(c, frontier) + Found(c, NextOf(c, frontier), target, k)
  {
    NextLevel(c, active, level, k);
    assert active[0] in active;
  }

  lemma SearchOver(c: Context, level: nat, k: int)
    requires k >= 1
    ensures Rounds(c, [], level, k) == [] && Found(c, [], level, k) == []
  {}

  method SearchTree(c: Context, height: nat, k: int) returns (rounds: seq<PruningRound>, suspects: seq<Suspect>)
    requires k >= 1
    ensures rounds == Rounds(c, [Position(height, 0)], height, k)
    ensures suspects == Found(c, [Position(height, 0)], height, k)
  {
    hide Rounds, Found, NextOf, SuspectsOf, FrontierOf, AllAt, Comparisons;
    rounds, suspects := [], [];
    var active := [Position(height, 0)];
    ghost var level: nat := height;
    assert AllAt(active, level) by { hide *; StartsAt(height); }
    while active != []
      invariant AllAt(active, level)
      invariant rounds + Rounds(c, active, level, k) == Rounds(c, [Position(height, 0)], height, k)
      invariant suspects + Found(c, active, level, k) == Found(c, [Position(height, 0)], height, k)
      decreases level, |active|
    {
      SearchStep(c, active, level, k);
      var from := active[0].level;
      var target := TargetLevel(from, k);
      var frontierSet := CollectAll(c, active, target);
      var frontier := SortedPositions(frontierSet);
      var comparisons, found, next := CompareAll(c, frontier);
      Regroup(rounds, Round(c, level, target, frontier), Rounds(c, next, target, k));
      Regroup(suspects, found, Found(c, next, target, k));
      if |comparisons| > 0 { rounds := rounds + [PruningRound(c.tree, from, target, comparisons)]; }
      suspects := suspects + found;
      active, level := next, target;
    }
    SearchOver(c, level, k);
  }

  lemma Regroup<T>(a: seq<T>, b: seq<T>, c: seq<T>)
    ensures (a + b) + c == a + (b + c)
    ensures a + [] == a
  {}

  lemma StartsAt(height: nat)
    ensures AllAt([Position(height, 0)], height)
  {}

  method CollectAll(c: Context, active: seq<Position>, target: int) returns (frontier: set<Position>)
    ensures frontier == FrontierOf(c.left, c.right, active, target)
  {
    frontier := {};
    for i := 0 to |active|
      invariant frontier == FrontierOf(c.left, c.right, active[..i], target)
    {
      assert active[..i + 1][..i] == active[..i];
      frontier := CollectFrontier(c.left, c.right, active[i], target, frontier);
    }
    assert active[..|active|] == active;
  }

  method CompareAll(c: Context, frontier: seq<Position>)
    returns (comparisons: seq<NodeComparison>, suspects: seq<Suspect>, next: seq<Position>)
    ensures comparisons == Comparisons(c, frontier) && suspects == SuspectsOf(c, frontier)
    ensures next == NextOf(c, frontier)
  {
    comparisons, suspects, next := [], [], [];
    for i := 0 to |frontier|
      invariant comparisons == Comparisons(c, frontier[..i])
      invariant suspects == SuspectsOf(c, frontier[..i])
      invariant next == NextOf(c, frontier[..i])
    {
      var p := frontier[i];
      assert frontier[..i + 1][..i] == frontier[..i];
      var isMatch := Matches(c.left, c.right, p);
      comparisons := comparisons + [NodeComparison(NodeRef(c.tree, p), HashAt(c.left, p), HashAt(c.right, p), isMatch)];
      assert comparisons == Comparisons(c, frontier[..i + 1]);
      if isMatch { continue; }
      if p.level == 0 {
        if ChildMismatch(c.auditor, c.reference, c.tree, p.index) { continue; }
        suspects := suspects + [SuspectFor(c, p)];
        continue;
      }
      if CanDescend(c.left, c.right, p) {
        next := next + [p];
      } else {
        suspects := suspects + [SuspectFor(c, p)];
      }
    }
    assert frontier[..|frontier|] == frontier;
  }

  // ---- The analysis of two proofs ----

  function TreeHeightOf(leafCount: int): nat {
    if leafCount <= 1 then 0 else Height(leafCount)
  }

  method TreeHeight(leafCount: int) returns (height: int)
    ensures height == TreeHeightOf(leafCount)
  {
    height := 0;
    var n := leafCount;
    while n > 1
      invariant height + TreeHeightOf(n) == TreeHeightOf(leafCount)
    {
      n := (n + 1) / 2;
      height := height + 1;
    }
  }

  function ShapeCount(inp: Inputs, t: TreeRef): int {
    if t in inp.plans then inp.plans[t].leafCount else 0
  }

  /** Both proofs have the tree, with the same number of leaves. */
  predicate SameShape(auditor: Evidence, reference: Evidence, t: TreeRef) {
    && t in auditor.trace.committedRoots && t in reference.trace.committedRoots
    && t in auditor.inputs.plans && t in reference.inputs.plans
    && auditor.inputs.plans[t].leafCount == reference.inputs.plans[t].leafCount
  }

  function CommittedOr(trace: ProofTrace, t: TreeRef): Digest {
    if t in trace.committedRoots then trace.committedRoots[t] else 0
  }

  function Max(a: int, b: int): int {
    if a > b then a else b
  }

  function TopologySuspect(auditor: Evidence, reference: Evidence, t: TreeRef): Suspect {
    var level := Max(TreeHeightOf(ShapeCount(auditor.inputs, t)), TreeHeightOf(ShapeCount(reference.inputs, t)));
    Suspect(NodeRef(t, Position(level, 0)), None, CommittedOr(auditor.trace, t), CommittedOr(reference.trace, t),
            TopologyMismatch)
  }

  function ContextOf(auditor: Evidence, reference: Evidence, addresses: seq<PhysicalAddress>, t: TreeRef): Context {
    Context(auditor, reference, t, NodesOf(auditor.trace.nodes, t), NodesOf(reference.trace.nodes, t),
            AddressByNode(addresses))
  }

  function TreeRounds(auditor: Evidence, reference: Evidence, addresses: seq<PhysicalAddress>, k: int,
                      t: TreeRef): seq<PruningRound>
    requires k >= 1
  {
    if RootsMatch(auditor, reference, t) || !SameShape(auditor, reference, t) then []
    else
      var height := TreeHeightOf(ShapeCount(auditor.inputs, t));
      StartsAt(height);
      Rounds(ContextOf(auditor, reference, addresses, t), [Position(height, 0)], height, k)
  }

  function TreeSuspects(auditor: Evidence, reference: Evidence, addresses: seq<PhysicalAddress>, k: int,
                        t: TreeRef): seq<Suspect>
    requires k >= 1
  {
    if RootsMatch(auditor, reference, t) then []
    else if !SameShape(auditor, reference, t) then [TopologySuspect(auditor, reference, t)]
    else
      var height := TreeHeightOf(ShapeCount(auditor.inputs, t));
      StartsAt(height);
      Found(ContextOf(auditor, reference, addresses, t), [Position(height, 0)], height, k)
  }

  function AllRounds(auditor: Evidence, reference: Evidence, addresses: seq<PhysicalAddress>, k: int,
                     trees: seq<TreeRef>): seq<PruningRound>
    requires k >= 1
  {
    if trees == [] then []
    else AllRounds(auditor, reference, addresses, k, trees[..|trees| - 1])
         + TreeRounds(auditor, reference, addresses, k, trees[|trees| - 1])
  }

  function AllSuspects(auditor: Evidence, reference: Evidence, addresses: seq<PhysicalAddress>, k: int,
                       trees: seq<TreeRef>): seq<Suspect>
    requires k >= 1
  {
    if trees == [] then []
    else AllSuspects(auditor, reference, addresses, k, trees[..|trees| - 1])
         + TreeSuspects(auditor, reference, addresses, k, trees[|trees| - 1])
  }

  function BadShards(auditor: Evidence, reference: Evidence, trees: seq<TreeRef>): seq<TreeRef> {
    if trees == [] then [] else
      var last := trees[|trees| - 1];
      BadShards(auditor, reference, trees[..|trees| - 1])
      + if last.layer == LAYER_SHARD && !RootsMatch(auditor, reference, last) then [last] else []
  }

  function UnionTrees(auditor: Evidence, reference: Evidence): seq<TreeRef> {
    SortTrees(auditor.inputs.plans.Keys + reference.inputs.plans.Keys)
  }

  function InsertSuspect(s: seq<Suspect>, x: Suspect): (r: seq<Suspect>)
    ensures multiset(r) == multiset(s) + multiset{x}
  {
    if s == [] || RefLess(x.ref, s[0].ref) then [x] + s
    else
      assert s == [s[0]] + s[1..];
      [s[0]] + InsertSuspect(s[1..], x)
  }

  function SortSuspects(s: seq<Suspect>): (r: seq<Suspect>)
    ensures multiset(r) == multiset(s)
  {
    if s == [] then [] else
      assert s == s[..|s| - 1] + [s[|s| - 1]];
      InsertSuspect(SortSuspects(s[..|s| - 1]), s[|s| - 1])
  }

  function AnalysisOf(auditor: Evidence, reference: Evidence, addresses: seq<PhysicalAddress>, k: int): Analysis
    requires k >= 1
  {
    var trees := UnionTrees(auditor, reference);
    Analysis(BadShards(auditor, reference, trees), AllRounds(auditor, reference, addresses, k, trees),
             SortSuspects(AllSuspects(auditor, reference, addresses, k, trees)))
  }

  lemma NoTrees(auditor: Evidence, reference: Evidence, addresses: seq<PhysicalAddress>, k: int)
    requires k >= 1
    ensures BadShards(auditor, reference, []) == [] && AllRounds(auditor, reference, addresses, k, []) == []
    ensures AllSuspects(auditor, reference, addresses, k, []) == []
  {}

  lemma OneMoreTree(auditor: Evidence, reference: Evidence, addresses: seq<PhysicalAddress>, k: int,
                    trees: seq<TreeRef>, i: nat)
    requires k >= 1 && i < |trees|
    ensures var t, bad := trees[i], BadShards(auditor, reference, trees[..i]);
      BadShards(auditor, reference, trees[..i + 1])
      == if t.layer == LAYER_SHARD && !RootsMatch(auditor, reference, t) then bad + [t] else bad
    ensures AllRounds(auditor, reference, addresses, k, trees[..i + 1])
         == AllRounds(auditor, reference, addresses, k, trees[..i])
           + TreeRounds(auditor, reference, addresses, k, trees[i])
    ensures AllSuspects(auditor, reference, addresses, k, trees[..i + 1])
         == AllSuspects(auditor, reference, addresses, k, trees[..i])
           + TreeSuspects(auditor, reference, addresses, k, trees[i])
  {
    hide RootsMatch, TreeRounds, TreeSuspects;
    assert trees[..i + 1][..i] == trees[..i];
  }

  method Analyze(auditor: Evidence, reference: Evidence, addresses: seq<PhysicalAddress>, k: int) returns (r: Analysis)
    requires k >= 1
    ensures r == AnalysisOf(auditor, reference, addresses, k)
  {
    hide BadShards, AllRounds, AllSuspects, TreeRounds, TreeSuspects, RootsMatch, SortSuspects, UnionTrees;
    var trees := UnionTrees(auditor, reference);
    var badShards: seq<TreeRef> := [];
    var rounds: seq<PruningRound> := [];
    var suspects: seq<Suspect> := [];
    NoTrees(auditor, reference, addresses, k);
    for i := 0 to |trees|
      invariant badShards == BadShards(auditor, reference, trees[..i])
      invariant rounds == AllRounds(auditor, reference, addresses, k, trees[..i])
      invariant suspects == AllSuspects(auditor, reference, addresses, k, trees[..i])
    {
      var t := trees[i];
      OneMoreTree(auditor, reference, addresses, k, trees, i);
      if t.layer == LAYER_SHARD && !RootsMatch(auditor, reference, t) { badShards := badShards + [t]; }
      var more, found := AnalyzeTree(auditor, reference, addresses, k, t);
      rounds, suspects := rounds + more, suspects + found;
    }
    assert trees[..|trees|] == trees;
    return Analysis(badShards, rounds, SortSuspects(suspects));
  }

  method AnalyzeTree(auditor: Evidence, reference: Evidence, addresses: seq<PhysicalAddress>, k: int, t: TreeRef)
    returns (rounds: seq<PruningRound>, suspects: seq<Suspect>)
    requires k >= 1
    ensures rounds == TreeRounds(auditor, reference, addresses, k, t)
    ensures suspects == TreeSuspects(auditor, reference, addresses, k, t)
  {
    hide Rounds, Found, ContextOf;
    if RootsMatch(auditor, reference, t) { return [], []; }
    if !SameShape(auditor, reference, t) { return [], [TopologySuspect(auditor, reference, t)]; }
    var height := TreeHeight(ShapeCount(auditor.inputs, t));
    rounds, suspects := SearchTree(ContextOf(auditor, reference, addresses, t), height, k);
  }
}
