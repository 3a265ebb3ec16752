/** What the report of an analysis says beside its suspects (internal/localization/analyze.go): every comparison carries
    the two traces' own hashes, every suspect was compared once and did not match, the rounds of a tree go down from its
    root, and the bad shards are those whose committed roots differ. */
module LocalizationRounds {
  import opened Hashing
  import opened Merkle
  import opened Sorting
  import opened ProofTypes
  import opened ProofInputs
  import opened Localization
  import opened LocalizationProofs
  import opened LocalizationExact

  // ---- Each comparison ----

  /** A comparison of a round: between the round's levels, with both traces' own hashes, 0 where there is none. It
      matches exactly if both traces hold the node with one hash. */
  ghost predicate ComparisonTrue(auditor: map<NodeRef, Digest>, reference: map<NodeRef, Digest>, round: PruningRound,
                                 cmp: NodeComparison) {
    && cmp.ref.tree == round.tree && round.targetLevel <= cmp.ref.position.level <= round.fromLevel
    && cmp.auditorHash == (if cmp.ref in auditor then auditor[cmp.ref] else 0)
    && cmp.referenceHash == (if cmp.ref in reference then reference[cmp.ref] else 0)
    && (cmp.isMatch <==> cmp.ref in auditor && cmp.ref in reference && auditor[cmp.ref] == reference[cmp.ref])
  }

  ghost predicate RoundTrue(auditor: Evidence, reference: Evidence, round: PruningRound) {
    && round.comparisons != []
    && forall j :: 0 <= j < |round.comparisons| ==>
         ComparisonTrue(auditor.trace.nodes, reference.trace.nodes, round, round.comparisons[j])
  }

  /** The search of one tree of the two traces. */
  ghost predicate InTraces(c: Context) {
    && c.left == NodesOf(c.auditor.trace.nodes, c.tree) && c.right == NodesOf(c.reference.trace.nodes, c.tree)
  }

  lemma ComparedTrue(c: Context, round: PruningRound, p: Position)
    requires InTraces(c) && round.tree == c.tree && round.targetLevel <= p.level <= round.fromLevel
    ensures ComparisonTrue(c.auditor.trace.nodes, c.reference.trace.nodes, round, Compare(c, p))
  {}

  // ---- How often a node is compared ----

  function TimesIn(comparisons: seq<NodeComparison>, ref: NodeRef): nat {
    if comparisons == [] then 0
    else
      TimesIn(comparisons[..|comparisons| - 1], ref) + if comparisons[|comparisons| - 1].ref == ref then 1 else 0
  }

  function TimesCompared(rounds: seq<PruningRound>, ref: NodeRef): nat {
    if rounds == [] then 0
    else TimesCompared(rounds[..|rounds| - 1], ref) + TimesIn(rounds[|rounds| - 1].comparisons, ref)
  }

  lemma {:induction false} TimesConcat(a: seq<PruningRound>, b: seq<PruningRound>, ref: NodeRef)
    ensures TimesCompared(a + b, ref) == TimesCompared(a, ref) + TimesCompared(b, ref)
    decreases |b|
  {
    if b == [] {
      assert a + b == a;
    } else {
      var rest, last := b[..|b| - 1], b[|b| - 1];
      TimesConcat(a, rest, ref);
      assert (a + b)[..|a + b| - 1] == a + rest;
    }
  }

  lemma {:induction false} TimesSorted(c: Context, frontier: seq<Position>, ref: NodeRef)
    requires Sorted(HigherFirst, frontier)
    ensures TimesIn(Comparisons(c, frontier), ref) == if ref.tree == c.tree && ref.position in frontier then 1 else 0
    decreases |frontier|
  {
    if frontier != [] {
      var rest, last := frontier[..|frontier| - 1], frontier[|frontier| - 1];
      TimesSorted(c, rest, ref);
      assert Comparisons(c, frontier)[..|frontier| - 1] == Comparisons(c, rest);
      assert frontier == rest + [last];
      forall i | 0 <= i < |rest| ensures rest[i] != last {
        assert HigherFirst(frontier[i], frontier[|frontier| - 1]);
      }
    }
  }

  lemma RoundTimes(c: Context, level: int, target: int, frontier: seq<Position>, ref: NodeRef)
    requires Sorted(HigherFirst, frontier)
    ensures TimesCompared(Round(c, level, target, frontier), ref)
         == if ref.tree == c.tree && ref.position in frontier then 1 else 0
  {
    hide Comparisons;
    TimesSorted(c, frontier, ref);
    if frontier != [] {
      var round := PruningRound(c.tree, level, target, Comparisons(c, frontier));
      assert [round][..0] == [];
    }
  }

  // ---- One tree ----

  /** All nodes to search below can be descended from. */
  ghost predicate Descendable(c: Context, active: seq<Position>) {
    forall p :: p in active ==> CanDescend(c.left, c.right, p)
  }

  lemma NextDescendable(c: Context, frontier: seq<Position>)
    ensures Descendable(c, NextOf(c, frontier))
  {
    hide NextOf;
  }

  lemma FrontierBetween(c: Context, active: seq<Position>, level: nat, target: int, q: Position)
    requires AllAt(active, level) && 0 <= target <= level && q in FrontierOf(c.left, c.right, active, target)
    ensures target <= q.level <= level && (Descendable(c, active) && target < level ==> q.level < level)
  {
    hide Frontier, FrontierOf;
    FrontierLevels(c.left, c.right, active, level, target, q);
    InFrontierOf(c.left, c.right, active, target, q);
    var p :| p in active && q in Frontier(c.left, c.right, p, target);
    if Descendable(c, active) && target < level { FrontierBelow(c.left, c.right, p, target, q); }
  }

  lemma {:induction false} TreeTimes(c: Context, active: seq<Position>, level: nat, k: int, ref: NodeRef)
    requires k >= 1 && AllAt(active, level)
    ensures var times := TimesCompared(Rounds(c, active, level, k), ref);
      && times <= 1 && (ref.tree != c.tree ==> times == 0)
      && (Descendable(c, active) && ref.position.level >= level ==> times == 0)
    decreases level, |active|
  {
    hide Rounds, Round, Found, FrontierOf, NextOf, SuspectsOf, Frontier, Descendable;
    if active == [] {
      SearchOver(c, level, k);
    } else {
      var target := TargetLevel(level, k);
      var frontier := SortedPositions(FrontierOf(c.left, c.right, active, target));
      var next := NextOf(c, frontier);
      SearchStep(c, active, level, k);
      RoundTimes(c, level, target, frontier, ref);
      TimesConcat(Round(c, level, target, frontier), Rounds(c, next, target, k), ref);
      NextDescendable(c, frontier);
      DescendPositive(c, active, level);
      if level > 0 { TreeTimes(c, next, target, k, ref); } else { SearchOver(c, target, k); }
      if ref.position in frontier { FrontierBetween(c, active, level, target, ref.position); }
    }
  }

  lemma DescendPositive(c: Context, active: seq<Position>, level: nat)
    requires AllAt(active, level) && active != []
    ensures Descendable(c, active) ==> level > 0
  {
    assert active[0] in active;
  }

  /** The rounds show that the suspect's node was compared, with its hashes, and did not match. */
  ghost predicate Shown(rounds: seq<PruningRound>, s: Suspect) {
    exists i, j :: 0 <= i < |rounds| && 0 <= j < |rounds[i].comparisons|
      && rounds[i].comparisons[j] == NodeComparison(s.ref, s.auditorHash, s.referenceHash, false)
  }

  lemma ShownConcat(a: seq<PruningRound>, b: seq<PruningRound>, s: Suspect)
    requires Shown(a, s) || Shown(b, s)
    ensures Shown(a + b, s)
  {
    if Shown(a, s) {
      var i, j :| 0 <= i < |a| && 0 <= j < |a[i].comparisons|
        && a[i].comparisons[j] == NodeComparison(s.ref, s.auditorHash, s.referenceHash, false);
      assert (a + b)[i] == a[i];
    } else {
      var i, j :| 0 <= i < |b| && 0 <= j < |b[i].comparisons|
        && b[i].comparisons[j] == NodeComparison(s.ref, s.auditorHash, s.referenceHash, false);
      assert (a + b)[|a| + i] == b[i];
    }
  }

  lemma RoundShows(c: Context, level: int, target: int, frontier: seq<Position>, s: Suspect)
    requires s in SuspectsOf(c, frontier)
    ensures Shown(Round(c, level, target, frontier), s) && s.ref.tree == c.tree && s.ref.position in frontier
    ensures s.classification != TopologyMismatch
  {
    hide SuspectsOf;
    InSuspects(c, frontier, s);
    var j :| 0 <= j < |frontier| && frontier[j] == s.ref.position;
    var round := Round(c, level, target, frontier)[0];
    assert round.comparisons[j] == NodeComparison(s.ref, s.auditorHash, s.referenceHash, false);
  }

  /** Each suspect of a tree was compared once, and did not match. */
  lemma {:induction false} TreeShows(c: Context, active: seq<Position>, level: nat, k: int, s: Suspect)
    requires k >= 1 && AllAt(active, level) && s in Found(c, active, level, k)
    ensures var rounds := Rounds(c, active, level, k); Shown(rounds, s) && TimesCompared(rounds, s.ref) == 1
    ensures s.ref.tree == c.tree && s.classification != TopologyMismatch
    decreases level, |active|
  {
    hide Rounds, Round, Found, FrontierOf, NextOf, SuspectsOf, Frontier, Shown;
    if active == [] {
      SearchOver(c, level, k);
    } else {
      var target := TargetLevel(level, k);
      var frontier := SortedPositions(FrontierOf(c.left, c.right, active, target));
      var next := NextOf(c, frontier);
      SearchStep(c, active, level, k);
      TreeTimes(c, active, level, k, s.ref);
      RoundTimes(c, level, target, frontier, s.ref);
      TimesConcat(Round(c, level, target, frontier), Rounds(c, next, target, k), s.ref);
      if s in SuspectsOf(c, frontier) {
        RoundShows(c, level, target, frontier, s);
      } else if level > 0 {
        TreeShows(c, next, target, k, s);
      } else {
        SearchOver(c, target, k);
      }
      ShownConcat(Round(c, level, target, frontier), Rounds(c, next, target, k), s);
    }
  }

  // ---- The rounds of one tree go down from its root ----

  /** The position lies at or below the other one. */
  predicate Under(p: Position, q: Position) {
    q.level <= p.level && Ancestor(q.index, p.level - q.level) == p.index
  }

  lemma {:induction false} FrontierUnder(left: Nodes, right: Nodes, p: Position, target: int, q: Position)
    requires q in Frontier(left, right, p, target)
    ensures Under(p, q)
    decreases if p.level < 0 then 0 else p.level
  {
    if p.level > target && CanDescend(left, right, p) {
      if q in Frontier(left, right, LeftChild(p), target) {
        FrontierUnder(left, right, LeftChild(p), target, q);
      } else {
        FrontierUnder(left, right, RightChild(p), target, q);
      }
    }
  }

  /** The round looks below a node at its first level that the round before found to differ. */
  ghost predicate FollowsMismatch(before: PruningRound, cmp: NodeComparison, level: int) {
    exists i :: 0 <= i < |before.comparisons| && !before.comparisons[i].isMatch
      && before.comparisons[i].ref.position.level == level
      && Under(before.comparisons[i].ref.position, cmp.ref.position)
  }

  /** Each round goes on where the one before stopped, below nodes that differ. */
  ghost predicate GoesOn(before: PruningRound, round: PruningRound) {
    && round.fromLevel == before.targetLevel < before.fromLevel
    && forall j :: 0 <= j < |round.comparisons| ==> FollowsMismatch(before, round.comparisons[j], round.fromLevel)
  }

  /** The rounds of a tree start at its root and go down by k levels, or to the leaves. */
  ghost predicate GoesDown(rounds: seq<PruningRound>, t: TreeRef, top: int, k: int) {
    && (forall i :: 0 <= i < |rounds| ==> rounds[i].tree == t && StepsDown(rounds[i], k))
    && (rounds != [] ==> rounds[0].fromLevel == top)
    && forall i :: 0 <= i < |rounds| - 1 ==> GoesOn(rounds[i], rounds[i + 1])
  }

  ghost predicate StepsDown(round: PruningRound, k: int) {
    round.targetLevel == if round.fromLevel < k then 0 else round.fromLevel - k
  }

  ghost predicate FromRoot(round: PruningRound, top: int) {
    forall j :: 0 <= j < |round.comparisons| ==> Under(Position(top, 0), round.comparisons[j].ref.position)
  }

  lemma {:induction false} TreeGoesDown(c: Context, active: seq<Position>, level: nat, k: int)
    requires k >= 1 && AllAt(active, level)
    ensures var rounds := Rounds(c, active, level, k);
      && GoesDown(rounds, c.tree, level, k) && (rounds == [] <==> active == [])
      && (rounds != [] ==> FollowsActive(c, rounds[0], active))
    decreases level, |active|
  {
    hide Rounds, Round, Found, FrontierOf, NextOf, SuspectsOf, Frontier, GoesOn, FollowsActive;
    if active == [] {
      SearchOver(c, level, k);
    } else {
      var target := TargetLevel(level, k);
      var frontier := SortedPositions(FrontierOf(c.left, c.right, active, target));
      var next := NextOf(c, frontier);
      SearchStep(c, active, level, k);
      FrontierFound(c, active, target);
      RoundIs(c, level, target, frontier);
      var first := Round(c, level, target, frontier)[0];
      FirstFollows(c, active, level, target, frontier);
      if level > 0 {
        TreeGoesDown(c, next, target, k);
        var rest := Rounds(c, next, target, k);
        if rest != [] { NextGoesOn(c, level, target, frontier, rest[0]); }
      } else {
        SearchOver(c, target, k);
      }
    }
  }

  /** Every position of the round lies below an active one. */
  ghost predicate FollowsActive(c: Context, round: PruningRound, active: seq<Position>) {
    forall j :: 0 <= j < |round.comparisons| ==> UnderOne(active, round.comparisons[j].ref.position)
  }

  predicate UnderOne(active: seq<Position>, q: Position) {
    exists p :: p in active && Under(p, q)
  }

  lemma RoundIs(c: Context, level: int, target: int, frontier: seq<Position>)
    requires frontier != []
    ensures var first := PruningRound(c.tree, level, target, Comparisons(c, frontier));
      Round(c, level, target, frontier) == [first] && |first.comparisons| == |frontier|
      && forall j :: 0 <= j < |frontier| ==> first.comparisons[j] == Compare(c, frontier[j])
  {}

  lemma {:induction false} FrontierSome(left: Nodes, right: Nodes, p: Position, target: int)
    ensures Frontier(left, right, p, target) != {}
    decreases if p.level < 0 then 0 else p.level
  {
    if p.level > target && CanDescend(left, right, p) { FrontierSome(left, right, LeftChild(p), target); }
  }

  lemma FrontierFound(c: Context, active: seq<Position>, target: int)
    requires active != []
    ensures SortedPositions(FrontierOf(c.left, c.right, active, target)) != []
  {
    hide Frontier, FrontierOf;
    var p := active[0];
    assert p in active;
    FrontierSome(c.left, c.right, p, target);
    var q :| q in Frontier(c.left, c.right, p, target);
    InFrontierOf(c.left, c.right, active, target, q);
    assert q in SortedPositions(FrontierOf(c.left, c.right, active, target));
  }

  lemma FirstFollows(c: Context, active: seq<Position>, level: int, target: int, frontier: seq<Position>)
    requires frontier != [] && frontier == SortedPositions(FrontierOf(c.left, c.right, active, target))
    ensures FollowsActive(c, PruningRound(c.tree, level, target, Comparisons(c, frontier)), active)
  {
    hide Frontier, FrontierOf;
    forall j | 0 <= j < |frontier| ensures UnderOne(active, frontier[j]) {
      assert frontier[j] in frontier;
      InFrontierOf(c.left, c.right, active, target, frontier[j]);
      var p :| p in active && frontier[j] in Frontier(c.left, c.right, p, target);
      FrontierUnder(c.left, c.right, p, target, frontier[j]);
    }
  }

  lemma NextGoesOn(c: Context, level: nat, target: int, frontier: seq<Position>, round: PruningRound)
    requires target < level && frontier != [] && round.fromLevel == target
    requires AllAt(NextOf(c, frontier), target) && FollowsActive(c, round, NextOf(c, frontier))
    ensures GoesOn(PruningRound(c.tree, level, target, Comparisons(c, frontier)), round)
  {
    hide NextOf, Under;
    var before := PruningRound(c.tree, level, target, Comparisons(c, frontier));
    forall j | 0 <= j < |round.comparisons| ensures FollowsMismatch(before, round.comparisons[j], target) {
      assert UnderOne(NextOf(c, frontier), round.comparisons[j].ref.position);
      var p :| p in NextOf(c, frontier) && Under(p, round.comparisons[j].ref.position);
      var i :| 0 <= i < |frontier| && frontier[i] == p;
      assert before.comparisons[i] == Compare(c, p);
    }
  }

  lemma {:induction false} TreeTrue(c: Context, active: seq<Position>, level: nat, k: int)
    requires k >= 1 && AllAt(active, level) && InTraces(c)
    ensures forall i :: 0 <= i < |Rounds(c, active, level, k)| ==>
      RoundTrue(c.auditor, c.reference, Rounds(c, active, level, k)[i])
    decreases level, |active|
  {
    hide Rounds, Round, Found, FrontierOf, NextOf, SuspectsOf, Frontier, ComparisonTrue, InTraces, Compare;
    if active == [] {
      SearchOver(c, level, k);
    } else {
      var target := TargetLevel(level, k);
      var frontier := SortedPositions(FrontierOf(c.left, c.right, active, target));
      SearchStep(c, active, level, k);
      FrontierFound(c, active, target);
      RoundIs(c, level, target, frontier);
      var first := Round(c, level, target, frontier)[0];
      forall j | 0 <= j < |frontier|
        ensures ComparisonTrue(c.auditor.trace.nodes, c.reference.trace.nodes, first, first.comparisons[j])
      {
        assert frontier[j] in frontier;
        FrontierBetween(c, active, level, target, frontier[j]);
        ComparedTrue(c, first, frontier[j]);
      }
      if level > 0 { TreeTrue(c, NextOf(c, frontier), target, k); } else { SearchOver(c, target, k); }
    }
  }

  // ---- The whole analysis ----

  /** The committed roots differ, or one of them is missing. */
  ghost predicate RootsDiffer(auditor: Evidence, reference: Evidence, t: TreeRef) {
    var left, right := auditor.trace.committedRoots, reference.trace.committedRoots;
    !(t in left && t in right && left[t] == right[t])
  }

  /** Both proofs have the tree's root and a plan for it with one number of leaves. */
  ghost predicate SizesAgree(auditor: Evidence, reference: Evidence, t: TreeRef) {
    && t in auditor.trace.committedRoots && t in reference.trace.committedRoots
    && t in auditor.inputs.plans && t in reference.inputs.plans
    && auditor.inputs.plans[t].leafCount == reference.inputs.plans[t].leafCount
  }

  predicate InEither(auditor: Evidence, reference: Evidence, t: TreeRef) {
    t in auditor.inputs.plans || t in reference.inputs.plans
  }

  lemma UnionIs(auditor: Evidence, reference: Evidence)
    ensures var trees := UnionTrees(auditor, reference);
      Sorted(TreeRefLess, trees) && Distinct(trees) && forall t :: t in trees <==> InEither(auditor, reference, t)
  {
    hide TreeRefLess;
    TreesDistinct(auditor, reference);
  }

  /** The rounds of one tree, in order. */
  function RoundsOf(rounds: seq<PruningRound>, t: TreeRef): seq<PruningRound> {
    if rounds == [] then []
    else RoundsOf(rounds[..|rounds| - 1], t) + if rounds[|rounds| - 1].tree == t then [rounds[|rounds| - 1]] else []
  }

  lemma {:induction false} OfConcat(a: seq<PruningRound>, b: seq<PruningRound>, t: TreeRef)
    ensures RoundsOf(a + b, t) == RoundsOf(a, t) + RoundsOf(b, t)
    decreases |b|
  {
    if b == [] {
      assert a + b == a;
    } else {
      OfConcat(a, b[..|b| - 1], t);
      assert (a + b)[..|a + b| - 1] == a + b[..|b| - 1];
    }
  }

  lemma {:induction false} OfOne(rounds: seq<PruningRound>, t: TreeRef, u: TreeRef)
    requires forall i :: 0 <= i < |rounds| ==> rounds[i].tree == u
    ensures RoundsOf(rounds, t) == if t == u then rounds else []
    decreases |rounds|
  {
    if rounds != [] { OfOne(rounds[..|rounds| - 1], t, u); }
  }

  lemma TreeReport(auditor: Evidence, reference: Evidence, addresses: seq<PhysicalAddress>, k: int, t: TreeRef)
    requires k >= 1
    ensures var rounds, height := TreeRounds(auditor, reference, addresses, k, t),
                                  TreeHeightOf(ShapeCount(auditor.inputs, t));
      && (rounds != [] <==> RootsDiffer(auditor, reference, t) && SizesAgree(auditor, reference, t))
      && GoesDown(rounds, t, height, k) && (rounds != [] ==> FromRoot(rounds[0], height))
      && forall i :: 0 <= i < |rounds| ==> RoundTrue(auditor, reference, rounds[i])
    ensures forall ref ::
      TimesCompared(TreeRounds(auditor, reference, addresses, k, t), ref) <= if ref.tree == t then 1 else 0
  {
    hide Rounds, GoesOn, RoundTrue, FollowsActive, ContextOf;
    if RootsDiffer(auditor, reference, t) && SizesAgree(auditor, reference, t) {
      var height := TreeHeightOf(ShapeCount(auditor.inputs, t));
      var c, active := ContextOf(auditor, reference, addresses, t), [Position(height, 0)];
      StartsAt(height);
      ContextIs(auditor, reference, addresses, t);
      TreeGoesDown(c, active, height, k);
      TreeTrue(c, active, height, k);
      OnlyRoot(c, Rounds(c, active, height, k)[0], height);
      forall ref ensures TimesCompared(Rounds(c, active, height, k), ref) <= if ref.tree == t then 1 else 0 {
        TreeTimes(c, active, height, k, ref);
      }
    }
  }

  lemma ContextIs(auditor: Evidence, reference: Evidence, addresses: seq<PhysicalAddress>, t: TreeRef)
    ensures var c := ContextOf(auditor, reference, addresses, t);
      InTraces(c) && c.tree == t && c.auditor == auditor && c.reference == reference
  {}

  lemma OnlyRoot(c: Context, round: PruningRound, height: int)
    requires FollowsActive(c, round, [Position(height, 0)])
    ensures FromRoot(round, height)
  {
    hide Under;
    forall j | 0 <= j < |round.comparisons| ensures Under(Position(height, 0), round.comparisons[j].ref.position) {
      assert UnderOne([Position(height, 0)], round.comparisons[j].ref.position);
    }
  }

  lemma OwnRounds(auditor: Evidence, reference: Evidence, addresses: seq<PhysicalAddress>, k: int, t: TreeRef)
    requires k >= 1
    ensures RoundsTrue(auditor, reference, TreeRounds(auditor, reference, addresses, k, t), [t])
    ensures forall i :: 0 <= i < |TreeRounds(auditor, reference, addresses, k, t)| ==>
      TreeRounds(auditor, reference, addresses, k, t)[i].tree == t
  {
    hide TreeRounds, RoundTrue, GoesOn, FromRoot, StepsDown;
    TreeReport(auditor, reference, addresses, k, t);
  }

  lemma {:induction false} AllReport(auditor: Evidence, reference: Evidence, addresses: seq<PhysicalAddress>, k: int,
                                     trees: seq<TreeRef>, t: TreeRef)
    requires k >= 1 && Distinct(trees)
    ensures RoundsOf(AllRounds(auditor, reference, addresses, k, trees), t)
         == if t in trees then TreeRounds(auditor, reference, addresses, k, t) else []
    decreases |trees|
  {
    hide TreeRounds, RoundTrue;
    if trees != [] {
      var rest, last := trees[..|trees| - 1], trees[|trees| - 1];
      assert trees == rest + [last];
      AllReport(auditor, reference, addresses, k, rest, t);
      OwnRounds(auditor, reference, addresses, k, last);
      var a, b := AllRounds(auditor, reference, addresses, k, rest), TreeRounds(auditor, reference, addresses, k, last);
      OfConcat(a, b, t);
      OfOne(b, t, last);
    }
  }

  /** Rounds true to the traces, each of one of the trees. */
  ghost predicate RoundsTrue(auditor: Evidence, reference: Evidence, rounds: seq<PruningRound>, trees: seq<TreeRef>) {
    forall i :: 0 <= i < |rounds| ==> rounds[i].tree in trees && RoundTrue(auditor, reference, rounds[i])
  }

  lemma MoreTrue(auditor: Evidence, reference: Evidence, a: seq<PruningRound>, b: seq<PruningRound>,
                 trees: seq<TreeRef>, t: TreeRef)
    requires RoundsTrue(auditor, reference, a, trees) && RoundsTrue(auditor, reference, b, [t])
    ensures RoundsTrue(auditor, reference, a + b, trees + [t])
  {
    hide RoundTrue;
  }

  lemma {:induction false} AllOwn(auditor: Evidence, reference: Evidence, addresses: seq<PhysicalAddress>, k: int,
                                  trees: seq<TreeRef>)
    requires k >= 1
    ensures RoundsTrue(auditor, reference, AllRounds(auditor, reference, addresses, k, trees), trees)
    decreases |trees|
  {
    hide TreeRounds, RoundTrue;
    if trees != [] {
      var rest, last := trees[..|trees| - 1], trees[|trees| - 1];
      assert trees == rest + [last];
      AllOwn(auditor, reference, addresses, k, rest);
      OwnRounds(auditor, reference, addresses, k, last);
      MoreTrue(auditor, reference, AllRounds(auditor, reference, addresses, k, rest),
               TreeRounds(auditor, reference, addresses, k, last), rest, last);
    }
  }

  lemma {:induction false} AllTimes(auditor: Evidence, reference: Evidence, addresses: seq<PhysicalAddress>, k: int,
                                    trees: seq<TreeRef>, ref: NodeRef)
    requires k >= 1 && Distinct(trees)
    ensures TimesCompared(AllRounds(auditor, reference, addresses, k, trees), ref)
         == if ref.tree in trees then TimesCompared(TreeRounds(auditor, reference, addresses, k, ref.tree), ref) else 0
    decreases |trees|
  {
    hide TreeRounds, RoundTrue, GoesDown, FromRoot;
    if trees != [] {
      var rest, last := trees[..|trees| - 1], trees[|trees| - 1];
      assert trees == rest + [last];
      AllTimes(auditor, reference, addresses, k, rest, ref);
      TreeReport(auditor, reference, addresses, k, last);
      TimesConcat(AllRounds(auditor, reference, addresses, k, rest),
                  TreeRounds(auditor, reference, addresses, k, last), ref);
    }
  }

  lemma {:induction false} AllShown(auditor: Evidence, reference: Evidence, addresses: seq<PhysicalAddress>, k: int,
                                    trees: seq<TreeRef>, s: Suspect)
    requires k >= 1 && s.ref.tree in trees && Shown(TreeRounds(auditor, reference, addresses, k, s.ref.tree), s)
    ensures Shown(AllRounds(auditor, reference, addresses, k, trees), s)
    decreases |trees|
  {
    hide TreeRounds, Shown;
    var rest, last := trees[..|trees| - 1], trees[|trees| - 1];
    assert trees == rest + [last];
    if s.ref.tree in rest { AllShown(auditor, reference, addresses, k, rest, s); }
    ShownConcat(AllRounds(auditor, reference, addresses, k, rest),
                TreeRounds(auditor, reference, addresses, k, last), s);
  }

  /** Every comparison of an analysis is true to the two traces, and no node is compared twice. */
  lemma ComparisonsTrue(auditor: Evidence, reference: Evidence, addresses: seq<PhysicalAddress>, k: int)
    requires k >= 1
    ensures var rounds := AnalysisOf(auditor, reference, addresses, k).rounds;
      && (forall i :: 0 <= i < |rounds| ==> RoundTrue(auditor, reference, rounds[i]))
      && (forall ref :: TimesCompared(rounds, ref) <= 1)
  {
    hide AllRounds, RoundTrue, UnionTrees, TimesCompared, GoesDown, FromRoot;
    var trees := UnionTrees(auditor, reference);
    UnionIs(auditor, reference);
    AllOwn(auditor, reference, addresses, k, trees);
    forall ref ensures TimesCompared(AllRounds(auditor, reference, addresses, k, trees), ref) <= 1 {
      AllTimes(auditor, reference, addresses, k, trees, ref);
      TreeReport(auditor, reference, addresses, k, ref.tree);
    }
  }

  /** Every suspect other than a whole tree was compared once, with the hashes it is reported with, and did not
      match. */
  lemma SuspectsCompared(auditor: Evidence, reference: Evidence, addresses: seq<PhysicalAddress>, k: int, s: Suspect)
    requires k >= 1 && s in AnalysisOf(auditor, reference, addresses, k).suspects
    requires s.classification != TopologyMismatch
    ensures var rounds := AnalysisOf(auditor, reference, addresses, k).rounds;
      TimesCompared(rounds, s.ref) == 1 && Shown(rounds, s)
  {
    hide AllRounds, AllSuspects, UnionTrees, TimesCompared, Shown, SortSuspects, Found, Rounds, InTreeSuspects,
      DistinctRefs, InOrder;
    var trees := UnionTrees(auditor, reference);
    UnionIs(auditor, reference);
    InAnalysis(auditor, reference, addresses, k, s);
    AllTimes(auditor, reference, addresses, k, trees, s.ref);
    SuspectOfTree(auditor, reference, addresses, k, s);
    AllShown(auditor, reference, addresses, k, trees, s);
  }

  lemma InAnalysis(auditor: Evidence, reference: Evidence, addresses: seq<PhysicalAddress>, k: int, s: Suspect)
    requires k >= 1
    ensures s in AnalysisOf(auditor, reference, addresses, k).suspects <==>
      InEither(auditor, reference, s.ref.tree) && s in TreeSuspects(auditor, reference, addresses, k, s.ref.tree)
  {
    hide AllSuspects, AllRounds, BadShards, UnionTrees, SortSuspects, TreeSuspects, DistinctRefs, InOrder, InEither;
    var trees := UnionTrees(auditor, reference);
    UnionIs(auditor, reference);
    AllDistinct(auditor, reference, addresses, k, trees);
    SortedSuspects(AllSuspects(auditor, reference, addresses, k, trees));
  }

  lemma SuspectOfTree(auditor: Evidence, reference: Evidence, addresses: seq<PhysicalAddress>, k: int, s: Suspect)
    requires k >= 1 && s in TreeSuspects(auditor, reference, addresses, k, s.ref.tree)
    requires s.classification != TopologyMismatch
    ensures var rounds := TreeRounds(auditor, reference, addresses, k, s.ref.tree);
      Shown(rounds, s) && TimesCompared(rounds, s.ref) == 1
  {
    hide Rounds, Found, Shown, TimesCompared, ContextOf;
    var t := s.ref.tree;
    var height := TreeHeightOf(ShapeCount(auditor.inputs, t));
    StartsAt(height);
    TreeShows(ContextOf(auditor, reference, addresses, t), [Position(height, 0)], height, k, s);
  }

  /** A tree has rounds exactly if its roots differ although both proofs have it with as many leaves; they start at its
      root and go down by k levels, each below the nodes in which the one before found a difference. */
  lemma RoundsDescend(auditor: Evidence, reference: Evidence, addresses: seq<PhysicalAddress>, k: int, t: TreeRef)
    requires k >= 1
    ensures var rounds := RoundsOf(AnalysisOf(auditor, reference, addresses, k).rounds, t);
      && (rounds != [] <==> RootsDiffer(auditor, reference, t) && SizesAgree(auditor, reference, t))
      && (rounds != [] ==>
            var height := TreeHeightOf(auditor.inputs.plans[t].leafCount);
            GoesDown(rounds, t, height, k) && FromRoot(rounds[0], height))
  {
    hide AllRounds, TreeRounds, RoundTrue, UnionTrees, TimesCompared, GoesDown, FromRoot, RoundsOf, TreeHeightOf;
    UnionIs(auditor, reference);
    AllReport(auditor, reference, addresses, k, UnionTrees(auditor, reference), t);
    TreeReport(auditor, reference, addresses, k, t);
  }

  /** The rounds come tree by tree, in the order of the trees. */
  lemma {:induction false} RoundsOrdered(auditor: Evidence, reference: Evidence, addresses: seq<PhysicalAddress>,
                                         k: int,
                                         trees: seq<TreeRef>, i: nat, j: nat)
    requires k >= 1 && Sorted(TreeRefLess, trees) && Distinct(trees)
    requires i < j < |AllRounds(auditor, reference, addresses, k, trees)|
    ensures var rounds := AllRounds(auditor, reference, addresses, k, trees);
      rounds[i].tree == rounds[j].tree || TreeRefLess(rounds[i].tree, rounds[j].tree)
    decreases |trees|
  {
    hide TreeRounds, RoundTrue, FromRoot, TreeRefLess;
    var rest, last := trees[..|trees| - 1], trees[|trees| - 1];
    assert trees == rest + [last];
    AllOwn(auditor, reference, addresses, k, rest);
    OwnRounds(auditor, reference, addresses, k, last);
    var a := AllRounds(auditor, reference, addresses, k, rest);
    if j < |a| {
      RoundsOrdered(auditor, reference, addresses, k, rest, i, j);
    } else if i < |a| {
      var x :| 0 <= x < |rest| && rest[x] == a[i].tree;
      assert TreeRefLess(trees[x], trees[|trees| - 1]);
    }
  }

  /** The bad shards are the Shard trees of either proof whose committed roots differ, each once and in order. */
  lemma BadShardsAre(auditor: Evidence, reference: Evidence, addresses: seq<PhysicalAddress>, k: int)
    requires k >= 1
    ensures var shards := AnalysisOf(auditor, reference, addresses, k).badShards;
      && Sorted(TreeRefLess, shards)
      && forall t :: t in shards <==>
           t.layer == LAYER_SHARD && InEither(auditor, reference, t) && RootsDiffer(auditor, reference, t)
  {
    hide TreeRefLess, BadShards, UnionTrees, InEither, RootsDiffer;
    UnionIs(auditor, reference);
    BadOnes(auditor, reference, UnionTrees(auditor, reference));
  }

  lemma {:induction false} BadOnes(auditor: Evidence, reference: Evidence, trees: seq<TreeRef>)
    requires Sorted(TreeRefLess, trees)
    ensures Sorted(TreeRefLess, BadShards(auditor, reference, trees))
    ensures forall t :: t in BadShards(auditor, reference, trees) <==>
      t in trees && t.layer == LAYER_SHARD && RootsDiffer(auditor, reference, t)
    decreases |trees|
  {
    hide TreeRefLess;
    if trees != [] {
      var rest, last := trees[..|trees| - 1], trees[|trees| - 1];
      assert trees == rest + [last];
      BadOnes(auditor, reference, rest);
      var bad := BadShards(auditor, reference, rest);
      forall i | 0 <= i < |bad| ensures TreeRefLess(bad[i], last) {
        assert bad[i] in bad;
        var x :| 0 <= x < |rest| && rest[x] == bad[i];
        assert TreeRefLess(trees[x], trees[|trees| - 1]);
      }
    }
  }

  /** A whole tree is suspected exactly if its roots differ and the proofs do not agree on its size; it is reported at
      the greater of the two heights, with the committed roots that there are. */
  lemma TopologyReported(auditor: Evidence, reference: Evidence, addresses: seq<PhysicalAddress>, k: int, s: Suspect)
    requires k >= 1 && s.classification == TopologyMismatch
    ensures s in AnalysisOf(auditor, reference, addresses, k).suspects <==>
      var t, left, right := s.ref.tree, auditor.trace.committedRoots, reference.trace.committedRoots;
      && InEither(auditor, reference, t) && RootsDiffer(auditor, reference, t) && !SizesAgree(auditor, reference, t)
      && s.address == None && s.ref.position.index == 0
      && s.ref.position.level == Max(HeightIn(auditor.inputs, t), HeightIn(reference.inputs, t))
      && s.auditorHash == (if t in left then left[t] else 0) && s.referenceHash == (if t in right then right[t] else 0)
  {
    hide Found, ContextOf, InEither, Height;
    InAnalysis(auditor, reference, addresses, k, s);
    var t := s.ref.tree;
    if SizesAgree(auditor, reference, t) && RootsDiffer(auditor, reference, t) {
      var height := TreeHeightOf(ShapeCount(auditor.inputs, t));
      StartsAt(height);
      if s in TreeSuspects(auditor, reference, addresses, k, t) {
        TreeShows(ContextOf(auditor, reference, addresses, t), [Position(height, 0)], height, k, s);
      }
    } else {
      assert s.ref == NodeRef(t, Position(s.ref.position.level, s.ref.position.index));
      assert s == Suspect(s.ref, s.address, s.auditorHash, s.referenceHash, s.classification);
    }
  }

  /** The height of a tree in a proof, 0 if it has no plan for it. */
  function HeightIn(inp: Inputs, t: TreeRef): int {
    if t in inp.plans then TreeHeightOf(inp.plans[t].leafCount) else 0
  }

  /** The rounds of an analysis come tree by tree, in the order of the trees. */
  lemma RoundsInOrder(auditor: Evidence, reference: Evidence, addresses: seq<PhysicalAddress>, k: int, i: nat, j: nat)
    requires k >= 1 && i < j < |AnalysisOf(auditor, reference, addresses, k).rounds|
    ensures var rounds := AnalysisOf(auditor, reference, addresses, k).rounds;
      rounds[i].tree == rounds[j].tree || TreeRefLess(rounds[i].tree, rounds[j].tree)
  {
    hide AllRounds, UnionTrees, TreeRefLess;
    UnionIs(auditor, reference);
    RoundsOrdered(auditor, reference, addresses, k, UnionTrees(auditor, reference), i, j);
  }

  // ---- No difference is dropped ----

  /** A node that was compared and differs is a suspect, or the tree below it differs, or the search goes on below
      it. */
  ghost predicate Explained(auditor: Evidence, reference: Evidence, cmp: NodeComparison, suspects: seq<Suspect>) {
    var p, t := cmp.ref.position, cmp.ref.tree;
    || (exists i :: 0 <= i < |suspects| && suspects[i].ref == cmp.ref)
    || (p.level == 0 && Slot(t, p.index) in reference.inputs.children
        && RootsDiffer(auditor, reference, reference.inputs.children[Slot(t, p.index)]))
    || (p.level > 0 && NodeRef(t, Position(p.level - 1, 2 * p.index)) in auditor.trace.nodes
        && NodeRef(t, Position(p.level - 1, 2 * p.index)) in reference.trace.nodes)
  }

  ghost predicate AllExplained(auditor: Evidence, reference: Evidence, rounds: seq<PruningRound>,
                               suspects: seq<Suspect>) {
    forall i, j :: 0 <= i < |rounds| && 0 <= j < |rounds[i].comparisons| && !rounds[i].comparisons[j].isMatch ==>
      Explained(auditor, reference, rounds[i].comparisons[j], suspects)
  }

  lemma ExplainedMore(auditor: Evidence, reference: Evidence, cmp: NodeComparison, a: seq<Suspect>, b: seq<Suspect>)
    requires Explained(auditor, reference, cmp, a) && forall s :: s in a ==> s in b
    ensures Explained(auditor, reference, cmp, b)
  {
    hide RootsDiffer;
    if i :| 0 <= i < |a| && a[i].ref == cmp.ref {
      assert a[i] in b;
      var j :| 0 <= j < |b| && b[j] == a[i];
    }
  }

  lemma MoreExplained(auditor: Evidence, reference: Evidence, a: seq<PruningRound>, b: seq<PruningRound>,
                      x: seq<Suspect>, y: seq<Suspect>)
    requires AllExplained(auditor, reference, a, x) && AllExplained(auditor, reference, b, y)
    ensures AllExplained(auditor, reference, a + b, x + y)
  {
    hide Explained;
    forall i, j | 0 <= i < |a + b| && 0 <= j < |(a + b)[i].comparisons| && !(a + b)[i].comparisons[j].isMatch
      ensures Explained(auditor, reference, (a + b)[i].comparisons[j], x + y)
    {
      if i < |a| {
        ExplainedMore(auditor, reference, a[i].comparisons[j], x, x + y);
      } else {
        ExplainedMore(auditor, reference, b[i - |a|].comparisons[j], y, x + y);
      }
    }
  }

  lemma RoundExplained(c: Context, level: int, target: int, frontier: seq<Position>)
    requires InTraces(c)
    ensures AllExplained(c.auditor, c.reference, Round(c, level, target, frontier), SuspectsOf(c, frontier))
  {
    hide SuspectsOf, Explained, Compare, InTraces;
    if frontier != [] {
      RoundIs(c, level, target, frontier);
      forall j | 0 <= j < |frontier| && !Compare(c, frontier[j]).isMatch
        ensures Explained(c.auditor, c.reference, Compare(c, frontier[j]), SuspectsOf(c, frontier))
      {
        assert frontier[j] in frontier;
        OneExplained(c, frontier, frontier[j]);
      }
    }
  }

  lemma OneExplained(c: Context, frontier: seq<Position>, p: Position)
    requires InTraces(c) && p in frontier && !Compare(c, p).isMatch
    ensures Explained(c.auditor, c.reference, Compare(c, p), SuspectsOf(c, frontier))
  {
    hide SuspectsOf;
    InSuspects(c, frontier, SuspectFor(c, p));
    if IsSuspect(c, p) {
      assert SuspectFor(c, p).ref == Compare(c, p).ref;
      var i :| 0 <= i < |SuspectsOf(c, frontier)| && SuspectsOf(c, frontier)[i] == SuspectFor(c, p);
    }
  }

  lemma {:induction false} TreeExplained(c: Context, active: seq<Position>, level: nat, k: int)
    requires k >= 1 && AllAt(active, level) && InTraces(c)
    ensures AllExplained(c.auditor, c.reference, Rounds(c, active, level, k), Found(c, active, level, k))
    decreases level, |active|
  {
    hide Rounds, Round, Found, FrontierOf, NextOf, SuspectsOf, Explained, InTraces;
    if active == [] {
      SearchOver(c, level, k);
    } else {
      var target := TargetLevel(level, k);
      var frontier := SortedPositions(FrontierOf(c.left, c.right, active, target));
      var next := NextOf(c, frontier);
      SearchStep(c, active, level, k);
      RoundExplained(c, level, target, frontier);
      if level > 0 { TreeExplained(c, next, target, k); } else { SearchOver(c, target, k); }
      MoreExplained(c.auditor, c.reference, Round(c, level, target, frontier), Rounds(c, next, target, k),
                    SuspectsOf(c, frontier), Found(c, next, target, k));
    }
  }

  lemma {:induction false} RoundsExplained(auditor: Evidence, reference: Evidence, addresses: seq<PhysicalAddress>,
                                           k: int, trees: seq<TreeRef>)
    requires k >= 1
    ensures AllExplained(auditor, reference, AllRounds(auditor, reference, addresses, k, trees),
                         AllSuspects(auditor, reference, addresses, k, trees))
    decreases |trees|
  {
    hide TreeRounds, TreeSuspects, Explained;
    if trees != [] {
      var rest, last := trees[..|trees| - 1], trees[|trees| - 1];
      RoundsExplained(auditor, reference, addresses, k, rest);
      OneTreeExplained(auditor, reference, addresses, k, last);
      MoreExplained(auditor, reference, AllRounds(auditor, reference, addresses, k, rest),
                    TreeRounds(auditor, reference, addresses, k, last),
                    AllSuspects(auditor, reference, addresses, k, rest),
                    TreeSuspects(auditor, reference, addresses, k, last));
    }
  }

  lemma OneTreeExplained(auditor: Evidence, reference: Evidence, addresses: seq<PhysicalAddress>, k: int, t: TreeRef)
    requires k >= 1
    ensures AllExplained(auditor, reference, TreeRounds(auditor, reference, addresses, k, t),
                         TreeSuspects(auditor, reference, addresses, k, t))
  {
    hide Rounds, Found, ContextOf, Explained;
    if RootsDiffer(auditor, reference, t) && SizesAgree(auditor, reference, t) {
      var height := TreeHeightOf(ShapeCount(auditor.inputs, t));
      StartsAt(height);
      ContextIs(auditor, reference, addresses, t);
      TreeExplained(ContextOf(auditor, reference, addresses, t), [Position(height, 0)], height, k);
    }
  }

  /** In every analysis, each difference that was compared is a suspect, lies in the tree below, or is searched
      further. */
  lemma DifferencesExplained(auditor: Evidence, reference: Evidence, addresses: seq<PhysicalAddress>, k: int)
    requires k >= 1
    ensures var a := AnalysisOf(auditor, reference, addresses, k);
      AllExplained(auditor, reference, a.rounds, a.suspects)
  {
    hide AllRounds, AllSuspects, UnionTrees, Explained, SortSuspects, DistinctRefs, InOrder;
    var trees := UnionTrees(auditor, reference);
    var rounds, found := AllRounds(auditor, reference, addresses, k, trees),
      AllSuspects(auditor, reference, addresses, k, trees);
    UnionIs(auditor, reference);
    RoundsExplained(auditor, reference, addresses, k, trees);
    AllDistinct(auditor, reference, addresses, k, trees);
    SortedSuspects(found);
    forall i, j | 0 <= i < |rounds| && 0 <= j < |rounds[i].comparisons| && !rounds[i].comparisons[j].isMatch
      ensures Explained(auditor, reference, rounds[i].comparisons[j], SortSuspects(found))
    {
      ExplainedMore(auditor, reference, rounds[i].comparisons[j], found, SortSuspects(found));
    }
  }
}
