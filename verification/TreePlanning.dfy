/** Planning one tree (internal/hpp/planner.go): which sibling nodes a verifier needs
    besides the target leaves to recompute the root. */
module TreePlanning {
  import opened Hashing
  import opened Merkle
  import opened Sorting
  import opened ProofTypes

  function Parents(active: set<int>): set<int> {
    set i | i in active :: i / 2
  }

  /** The nodes of a level that lie above a target. */
  function Active(targets: set<int>, level: nat): set<int> {
    if level == 0 then targets else Parents(Active(targets, level - 1))
  }

  /** A node of a row that is not active itself, though its sibling is. */
  predicate MissingSibling(width: int, active: set<int>, i: int) {
    0 <= i < width && i !in active && i / 2 in Parents(active)
  }

  predicate Needed(n: nat, targets: set<int>, p: Position) {
    0 <= p.level < Height(n) && MissingSibling(Width(n, p.level), Active(targets, p.level), p.index)
  }

  function NeededSet(n: nat, targets: set<int>): (s: set<Position>)
    ensures forall p :: p in s <==> Needed(n, targets, p)
  {
    set p | p in Positions(n) && Needed(n, targets, p)
  }

  predicate ValidTargets(leafCount: int, targets: set<int>) {
    leafCount > 0 && targets != {} && forall t :: t in targets ==> 0 <= t < leafCount
  }

  ghost predicate Ascending(s: seq<int>) {
    forall i, j :: 0 <= i < j < |s| ==> s[i] < s[j]
  }

  function SortIndexes(s: set<int>): (r: seq<int>)
    ensures Ascending(r) && SameElements(r, s) && |r| == |s|
  {
    IntOrder();
    var r := SortSet(IntLess, s);
    assert forall i, j :: 0 <= i < j < |r| ==> IntLess(r[i], r[j]);
    r
  }

  function SortPositions(s: set<Position>): (r: seq<Position>)
    ensures Sorted(PositionLess, r) && SameElements(r, s) && |r| == |s|
  {
    PositionOrder();
    SortSet(PositionLess, s)
  }

  /** The plan that PlanTree returns. */
  function CanonicalPlan(tree: TreeRef, leafCount: int, targets: set<int>): (p: TreePlan)
    requires ValidTargets(leafCount, targets)
  {
    TreePlan(tree, leafCount, SortIndexes(targets), SortPositions(NeededSet(leafCount, targets)))
  }

  /** `active[..position]` has been walked, and it ends where a pair of siblings ends. */
  ghost predicate Walked(active: seq<int>, position: int, next: seq<int>) {
    && 0 <= position <= |active|
    && Ascending(next)
    && (forall i :: 0 <= i < position ==> ParentOf(active, i) in next)
    && (forall x :: x in next ==> exists i :: 0 <= i < position && ParentOf(active, i) == x)
    && (position < |active| ==> forall x :: x in next ==> x < ParentOf(active, position))
  }

  function ParentOf(active: seq<int>, i: int): int
    requires 0 <= i < |active|
  {
    active[i] / 2
  }

  /** `missing` lists the missing siblings below the nodes of `next`. */
  ghost predicate Missing(width: int, active: seq<int>, next: seq<int>, missing: seq<int>) {
    && Ascending(missing)
    && (forall i :: i in missing <==> 0 <= i < width && i !in active && i / 2 in next)
  }

  ghost predicate MissingSiblings(width: int, active: set<int>, missing: seq<int>) {
    && Ascending(missing)
    && (forall i :: i in missing <==> MissingSibling(width, active, i))
  }

  function AtLevel(level: int, indexes: seq<int>): (r: seq<Position>)
    ensures |r| == |indexes| && forall k :: 0 <= k < |r| ==> r[k] == Position(level, indexes[k])
  {
    seq(|indexes|, k requires 0 <= k < |indexes| => Position(level, indexes[k]))
  }

  /** The positions required on the levels below `level`, in canonical order. */
  ghost predicate RequiredBelow(n: nat, targets: set<int>, level: nat, required: seq<Position>) {
    && Sorted(PositionLess, required)
    && (forall p :: p in required <==> Needed(n, targets, p) && p.level < level)
  }

  method PlanTree(tree: TreeRef, leafCount: int, targets: set<int>) returns (r: Result<TreePlan>)
    ensures r == if ValidTargets(leafCount, targets) then Ok(CanonicalPlan(tree, leafCount, targets)) else Err
  {
    if leafCount <= 0 || targets == {} || exists t :: t in targets && !(0 <= t < leafCount) {
      return Err;
    }
    var active := SortIndexes(targets);
    var sorted := active;
    var required: seq<Position> := [];
    var width := leafCount;
    var level := 0;
    while width > 1
      invariant 0 <= level <= Height(leafCount) && width == Width(leafCount, level)
      invariant Ascending(active) && SameElements(active, Active(targets, level))
      invariant RequiredBelow(leafCount, targets, level, required)
      decreases width
    {
      AtTop(leafCount, level);
      ActiveInRange(leafCount, targets, level);
      var next;
      ghost var missing;
      ghost var before := required;
      next, required, missing := PlanLevel(width, level, active, required, Active(targets, level));
      LevelPlanned(leafCount, targets, level, missing, before);
      active := next;
      width := (width + 1) / 2;
      level := level + 1;
    }
    AtTop(leafCount, level);
    AllDone(leafCount, targets, level, required);
    return Ok(TreePlan(tree, leafCount, sorted, required));
  }

  /** Walks the active nodes of one level, adding their missing siblings to the plan. */
  method PlanLevel(width: int, level: int, active: seq<int>, required0: seq<Position>, ghost act: set<int>)
    returns (next: seq<int>, required: seq<Position>, ghost missing: seq<int>)
    requires Ascending(active) && SameElements(active, act) && forall i :: i in act ==> 0 <= i < width
    ensures Ascending(next) && SameElements(next, Parents(act))
    ensures MissingSiblings(width, act, missing)
    ensures required == required0 + AtLevel(level, missing)
  {
    hide Walked, Missing, MissingSiblings, Parents, Ascending, MissingOf, PairAt;
    next, required, missing := [], required0, [];
    var position := 0;
    WalkStart(width, active);
    assert AtLevel(level, []) == [];
    while position < |active|
      invariant 0 <= position <= |active|
      invariant Walked(active, position, next)
      invariant Missing(width, active, next, missing)
      invariant required == required0 + AtLevel(level, missing)
    {
      WalkPair(active, position, next);
      MissingPair(width, active, position, next, missing);
      var pair := PairAt(active, position);
      AtLevelConcat(level, missing, MissingOf(width, pair));
      required := required + AtLevel(level, MissingOf(width, pair));
      missing := missing + MissingOf(width, pair);
      next := next + [pair.parent];
      position := pair.end;
    }
    WalkDone(width, active, act, next, missing);
  }

  lemma AtLevelConcat(level: int, a: seq<int>, b: seq<int>)
    ensures AtLevel(level, a + b) == AtLevel(level, a) + AtLevel(level, b)
  {}

  lemma WalkStart(width: int, active: seq<int>)
    ensures Walked(active, 0, []) && Missing(width, active, [], [])
  {}

  /** The pair of siblings with the active node `active[start]`, its first one. */
  datatype Pair = Pair(parent: int, haveLeft: bool, haveRight: bool, end: int)

  function PairAt(active: seq<int>, start: int): Pair
    requires 0 <= start < |active|
  {
    var parent := active[start] / 2;
    var haveLeft := active[start] == parent * 2;
    var at := if haveLeft then start + 1 else start;
    var haveRight := at < |active| && active[at] == parent * 2 + 1;
    Pair(parent, haveLeft, haveRight, if haveRight then at + 1 else at)
  }

  /** The missing siblings of a pair. */
  function MissingOf(width: int, pair: Pair): seq<int> {
    (if pair.haveLeft then [] else [pair.parent * 2])
    + (if !pair.haveRight && pair.parent * 2 + 1 < width then [pair.parent * 2 + 1] else [])
  }

  /** A pair lists exactly the active nodes below its parent. */
  lemma PairPresence(active: seq<int>, start: int, next: seq<int>)
    requires Ascending(active) && Walked(active, start, next) && start < |active|
    ensures var pair := PairAt(active, start);
      && start < pair.end <= |active|
      && (pair.haveLeft || pair.haveRight)
      && (pair.haveLeft <==> pair.parent * 2 in active)
      && (pair.haveRight <==> pair.parent * 2 + 1 in active)
  {
    var parent := active[start] / 2;
    forall k | 0 <= k < start ensures active[k] / 2 != parent {
      assert ParentOf(active, k) in next && parent == ParentOf(active, start);
    }
    if parent * 2 in active {
      var k :| 0 <= k < |active| && active[k] == parent * 2;
      assert k == start;
    }
    if parent * 2 + 1 in active {
      var k :| 0 <= k < |active| && active[k] == parent * 2 + 1;
      assert start + 1 < |active| ==> active[start] < active[start + 1];
    }
  }

  /** One turn of the walk takes both siblings of a pair. */
  lemma WalkPair(active: seq<int>, start: int, next: seq<int>)
    requires Ascending(active) && Walked(active, start, next) && start < |active|
    ensures var pair := PairAt(active, start);
      start < pair.end <= |active| && Walked(active, pair.end, next + [pair.parent])
  {
    PairPresence(active, start, next);
    var pair := PairAt(active, start);
    var next' := next + [pair.parent];
    assert ParentOf(active, start) == pair.parent;
    forall i | start <= i < pair.end ensures ParentOf(active, i) == pair.parent {}
    forall k | 0 <= k < |next| ensures next[k] < pair.parent {
      assert next[k] in next;
    }
    if pair.end < |active| {
      assert active[pair.end - 1] < active[pair.end] && active[start] <= active[pair.end - 1];
    }
  }

  lemma MissingPair(width: int, active: seq<int>, start: int, next: seq<int>, missing: seq<int>)
    requires Ascending(active) && Walked(active, start, next) && start < |active|
    requires forall i :: i in active ==> 0 <= i < width
    requires Missing(width, active, next, missing)
    ensures var pair := PairAt(active, start);
      Missing(width, active, next + [pair.parent], missing + MissingOf(width, pair))
  {
    PairPresence(active, start, next);
    var pair := PairAt(active, start);
    assert active[start] in active;
    forall k | 0 <= k < |missing| ensures missing[k] < pair.parent * 2 {
      assert missing[k] in missing && missing[k] / 2 in next;
    }
  }


  lemma {:induction false} ActiveInRange(n: nat, targets: set<int>, level: nat)
    requires ValidTargets(n, targets)
    ensures Active(targets, level) != {}
    ensures forall i :: i in Active(targets, level) ==> 0 <= i < Width(n, level)
    decreases level
  {
    if level > 0 {
      ActiveInRange(n, targets, level - 1);
      var i :| i in Active(targets, level - 1);
      assert i / 2 in Active(targets, level);
    }
  }

  lemma TopActive(n: nat, targets: set<int>)
    requires ValidTargets(n, targets)
    ensures Active(targets, Height(n)) == {0}
  {
    ActiveInRange(n, targets, Height(n));
    TopWidth(n);
    var top := Active(targets, Height(n));
    assert forall i :: i in top ==> i == 0;
  }

  /** What a walk over a whole row has found. */
  lemma WalkDone(width: int, active: seq<int>, act: set<int>, next: seq<int>, missing: seq<int>)
    requires SameElements(active, act) && Walked(active, |active|, next)
    requires Missing(width, active, next, missing)
    ensures Ascending(next) && SameElements(next, Parents(act))
    ensures MissingSiblings(width, act, missing)
  {
    forall x ensures x in next <==> x in Parents(act) {
      if x in Parents(act) {
        var i :| i in act && i / 2 == x;
        assert i in active;
        var k :| 0 <= k < |active| && active[k] == i;
        assert ParentOf(active, k) == x;
      }
      if x in next {
        var k :| 0 <= k < |active| && ParentOf(active, k) == x;
        assert active[k] in active;
      }
    }
  }

  lemma LevelPlanned(n: nat, targets: set<int>, level: nat, missing: seq<int>, required: seq<Position>)
    requires level < Height(n)
    requires MissingSiblings(Width(n, level), Active(targets, level), missing)
    requires RequiredBelow(n, targets, level, required)
    ensures RequiredBelow(n, targets, level + 1, required + AtLevel(level, missing))
  {
    var added := AtLevel(level, missing);
    forall p ensures p in added <==> Needed(n, targets, p) && p.level == level {
      assert p in added <==> p.level == level && p.index in missing by {
        if p.level == level && p.index in missing {
          var k :| 0 <= k < |missing| && missing[k] == p.index;
          assert added[k] == p;
        }
        if p in added {
          var k :| 0 <= k < |added| && added[k] == p;
          assert missing[k] in missing;
        }
      }
    }
    var all := required + added;
    forall i, j | 0 <= i < j < |all| ensures PositionLess(all[i], all[j]) {
      if i < |required| <= j {
        assert required[i] in required;
      }
    }
  }

  lemma AllDone(n: nat, targets: set<int>, level: nat, required: seq<Position>)
    requires n > 0 && level == Height(n)
    requires RequiredBelow(n, targets, level, required)
    ensures required == SortPositions(NeededSet(n, targets))
  {
    PositionOrder();
    SortedUnique(PositionLess, required, SortPositions(NeededSet(n, targets)));
  }
}
