/** Folding known leaves and proof nodes up to a tree's root (internal/hpp/verifier.go). */
module TreeFold {
  import opened Hashing
  import opened Merkle
  import opened Sorting
  import opened TreePlanning

  datatype IndexedHash = IndexedHash(index: int, hash: Digest)

  /** Known leaves and proof nodes that fit each other: the proof nodes are exactly the needed ones. */
  predicate Foldable(leafCount: int, known: map<int, Digest>, proof: map<Position, Digest>) {
    ValidTargets(leafCount, known.Keys) && proof.Keys == NeededSet(leafCount, known.Keys)
  }

  function ChildValue(below: map<int, Digest>, proof: map<Position, Digest>, level: int, i: int): Digest {
    if i in below then below[i]
    else if Position(level, i) in proof then proof[Position(level, i)]
    else 0
  }

  function Combine(width: int, below: map<int, Digest>, proof: map<Position, Digest>, level: int, parent: int): Digest {
    if 2 * parent + 1 < width
    then HashPair(ChildValue(below, proof, level, 2 * parent), ChildValue(below, proof, level, 2 * parent + 1))
    else ChildValue(below, proof, level, 2 * parent)
  }

  /** The values of the parents of `below`, a row's known nodes. */
  function CombineRow(width: int, below: map<int, Digest>, proof: map<Position, Digest>, level: int): (m: map<int,
                      Digest>)
    ensures m.Keys == Parents(below.Keys)
    ensures forall i :: i in m ==> m[i] == Combine(width, below, proof, level, i)
  {
    map i | i in Parents(below.Keys) :: Combine(width, below, proof, level, i)
  }

  /** The values computed for the nodes of a level that lie above known leaves. */
  function Computed(n: nat, known: map<int, Digest>, proof: map<Position, Digest>, level: nat): (m: map<int, Digest>)
    ensures m.Keys == Active(known.Keys, level)
  {
    if level == 0 then known
    else CombineRow(Width(n, level - 1), Computed(n, known, proof, level - 1), proof, level - 1)
  }

  function Lift(level: int, row: map<int, Digest>): (m: map<Position, Digest>)
    ensures forall p :: p in m <==> p.level == level && p.index in row
    ensures forall p :: p in m ==> m[p] == row[p.index]
  {
    assert forall p: Position :: p.level == level ==> p == Position(level, p.index);
    map p | p in (set i | i in row :: Position(level, i)) :: row[p.index]
  }

  /** Every supplied node and every node recomputed up to a level. */
  function Trace(n: nat, known: map<int, Digest>, proof: map<Position, Digest>, level: nat): map<Position, Digest> {
    if level == 0 then proof + Lift(0, known)
    else Trace(n, known, proof, level - 1) + Lift(level, Computed(n, known, proof, level))
  }

  function FullTrace(n: nat, known: map<int, Digest>, proof: map<Position, Digest>): map<Position, Digest> {
    Trace(n, known, proof, Height(n))
  }

  /** The recomputed raw root. */
  function FoldRoot(n: nat, known: map<int, Digest>, proof: map<Position, Digest>): Digest
    requires ValidTargets(n, known.Keys)
  {
    TopActive(n, known.Keys);
    Computed(n, known, proof, Height(n))[0]
  }

  function Indexes(s: seq<IndexedHash>): (r: seq<int>)
    ensures |r| == |s| && forall k :: 0 <= k < |s| ==> r[k] == s[k].index
  {
    seq(|s|, k requires 0 <= k < |s| => s[k].index)
  }

  /** `current` lists the values of a row in ascending order of index. */
  ghost predicate Lists(current: seq<IndexedHash>, row: map<int, Digest>) {
    && Ascending(Indexes(current))
    && SameElements(Indexes(current), row.Keys)
    && (forall k :: 0 <= k < |current| ==> current[k].index in row && current[k].hash == row[current[k].index])
    && |current| == |row|
  }

  ghost predicate AllSupplied(proof: map<Position, Digest>, level: int, missing: seq<int>) {
    forall i :: i in missing ==> Position(level, i) in proof
  }

  /** `out` is `out0` overwritten with a row of values; the same as out == out0 + Lift(level, row). */
  ghost predicate Extends(out0: map<Position, Digest>, level: int, row: map<int, Digest>, out: map<Position, Digest>) {
    && (forall p :: p in out <==> p in out0 || (p.level == level && p.index in row))
    && (forall p :: p in out ==> out[p] == if p.level == level && p.index in row then row[p.index] else out0[p])
  }

  method ReconstructTree(leafCount: int, known: map<int, Digest>, proof: map<Position, Digest>)
    returns (r: Result<Digest>, out: map<Position, Digest>)
    ensures r.Ok? <==> Foldable(leafCount, known, proof)
    ensures r.Ok? ==> r.value == FoldRoot(leafCount, known, proof) && SameNodes(out, FullTrace(leafCount, known, proof))
  {
    hide Computed, Trace, Width, Height, NeededSet, FoldState, Lists, MissingSiblings, MissingSibling, AllSupplied,
      CombineRow, Extends, Parents, Active, SameNodes, FullTrace;
    out := map[];
    if leafCount <= 0 || |known| == 0 { return Err, out; }
    if exists i :: i in known && !(0 <= i < leafCount) { return Err, out; }
    var current := SortKnown(known);
    out := proof + Lift(0, known);
    var used := 0;
    ghost var consumed: seq<Position> := [];  // the proof nodes looked up so far
    var width := leafCount;
    var level := 0;
    StartFold(leafCount, known, proof, current);
    while width > 1
      invariant 0 <= level && FoldState(leafCount, known, proof, level, width, current, out, consumed)
      invariant used == |consumed|
      decreases width
    {
      LevelFoldable(leafCount, known, proof, level, width, current, out, consumed);
      var ok, next;
      ghost var missing: seq<int>;
      ghost var before, row := out, Computed(leafCount, known, proof, level);
      ok, next, used, out, missing := FoldLevel(width, level, proof, current, used, out, row);
      if !ok {
        Unfoldable(leafCount, known, proof, level, width);
        return Err, out;
      }
      LevelFolded(leafCount, known, proof, level, width, current, before, consumed, next, missing, out);
      consumed := consumed + AtLevel(level, missing);
      current := next;
      width := (width + 1) / 2;
      level := level + 1;
    }
    FoldDone(leafCount, known, proof, level, width, current, out, consumed);
    if |current| != 1 { return Err, out; }
    if used != |proof| { return Err, out; }
    return Ok(current[0].hash), out;
  }

  function SortKnown(known: map<int, Digest>): (r: seq<IndexedHash>)
    ensures Lists(r, known)
  {
    var indexes := SortIndexes(known.Keys);
    assert forall k :: 0 <= k < |indexes| ==> indexes[k] in indexes;
    var r := seq(|indexes|, k requires 0 <= k < |indexes| => IndexedHash(indexes[k], known[indexes[k]]));
    assert Indexes(r) == indexes;
    r
  }

  /** Folds one level; `ok` is false when a proof node is missing. */
  method FoldLevel(width: int, level: int, proof: map<Position, Digest>, current: seq<IndexedHash>, used0: nat,
                   out0: map<Position, Digest>, ghost row: map<int, Digest>)
    returns (ok: bool, next: seq<IndexedHash>, used: nat, out: map<Position, Digest>, ghost missing: seq<int>)
    requires Lists(current, row) && forall i :: i in row ==> 0 <= i < width
    ensures !ok ==> exists i :: MissingSibling(width, row.Keys, i) && Position(level, i) !in proof
    ensures ok ==> MissingSiblings(width, row.Keys, missing) && AllSupplied(proof, level, missing)
    ensures ok ==> used == used0 + |missing|
    ensures ok ==> Lists(next, CombineRow(width, row, proof, level))
    ensures ok ==> Extends(out0, level + 1, CombineRow(width, row, proof, level), out)
  {
    ok, next, used, out, missing := true, [], used0, out0, [];
    ghost var built: map<int, Digest> := map[];
    var position := 0;
    StartLevel(width, level, proof, current, row, out);
    while position < |current|
      invariant LevelState(width, level, proof, current, position, row, next, missing, built)
      invariant used == used0 + |missing|
      invariant Extends(out0, level + 1, built, out)
    {
      var parentIndex := current[position].index / 2;
      var parent, lookups;
      ghost var looked;
      ghost var start := position;
      ok, position, parent, lookups, looked := FoldPair(width, level, proof, current, position, row, Indexes(next));
      if !ok { return; }
      PairFolded(width, level, proof, current, start, row, next, missing, built, parent, looked);
      ExtendsUpdate(out0, level + 1, built, out, parentIndex, parent);
      next := next + [IndexedHash(parentIndex, parent)];
      out := out[Position(level + 1, parentIndex) := parent];
      built := built[parentIndex := parent];
      used, missing := used + lookups, missing + looked;
    }
    LevelDone(width, level, proof, current, row, next, missing, built);
  }

  /** Folds one pair of siblings, taking from the proof what is not known. */
  method FoldPair(width: int, level: int, proof: map<Position, Digest>, current: seq<IndexedHash>, start: int,
                  ghost row: map<int, Digest>, ghost next: seq<int>)
    returns (ok: bool, position: int, parent: Digest, lookups: nat, ghost looked: seq<int>)
    requires Lists(current, row) && forall i :: i in row ==> 0 <= i < width
    requires Walked(Indexes(current), start, next) && start < |current|
    ensures var pair := PairAt(Indexes(current), start);
      && (!ok ==> exists i :: MissingSibling(width, row.Keys, i) && Position(level, i) !in proof)
      && (ok ==> position == pair.end && parent == Combine(width, row, proof, level, pair.parent))
      && (ok ==> looked == MissingOf(width, pair) && lookups == |looked| && AllSupplied(proof, level, looked))
  {
    var parentIndex := current[start].index / 2;
    var leftIndex := parentIndex * 2;
    var rightIndex := leftIndex + 1;
    SiblingValues(width, row, proof, level, current, start, next);
    ok, position, parent, lookups, looked := true, start, 0, 0, [];
    var left;
    if current[position].index == leftIndex {
      left := current[position].hash;
      position := position + 1;
    } else {
      if Position(level, leftIndex) !in proof { ok := false; return; }
      left := proof[Position(level, leftIndex)];
      lookups, looked := 1, [leftIndex];
    }
    parent := left;
    if rightIndex < width {
      var right;
      if position < |current| && current[position].index == rightIndex {
        right := current[position].hash;
        position := position + 1;
      } else {
        if Position(level, rightIndex) !in proof { ok := false; return; }
        right := proof[Position(level, rightIndex)];
        lookups, looked := lookups + 1, looked + [rightIndex];
      }
      parent := HashPair(left, right);
    }
  }

  /** `next` and `built` hold the same values, those of the parents walked so far. */
  ghost predicate Built(width: int, row: map<int, Digest>, proof: map<Position, Digest>, level: int,
                        next: seq<IndexedHash>, built: map<int, Digest>) {
    && SameElements(Indexes(next), built.Keys)
    && (forall k :: 0 <= k < |next| ==> next[k].index in built && next[k].hash == built[next[k].index])
    && (forall i :: i in built ==> built[i] == Combine(width, row, proof, level, i))
    && |next| == |built|
  }

  /** What is known when the pairs before `position` are folded. */
  ghost predicate LevelState(width: int, level: int, proof: map<Position, Digest>, current: seq<IndexedHash>,
                             position: int, row: map<int, Digest>, next: seq<IndexedHash>, missing: seq<int>,
                             built: map<int, Digest>) {
    && Walked(Indexes(current), position, Indexes(next))
    && Missing(width, Indexes(current), Indexes(next), missing)
    && AllSupplied(proof, level, missing)
    && Built(width, row, proof, level, next, built)
  }

  lemma StartLevel(width: int, level: int, proof: map<Position, Digest>, current: seq<IndexedHash>,
                   row: map<int, Digest>, out: map<Position, Digest>)
    ensures LevelState(width, level, proof, current, 0, row, [], [], map[])
    ensures Extends(out, level + 1, map[], out)
  {}

  lemma LevelDone(width: int, level: int, proof: map<Position, Digest>, current: seq<IndexedHash>,
                  row: map<int, Digest>, next: seq<IndexedHash>, missing: seq<int>, built: map<int, Digest>)
    requires Lists(current, row)
    requires LevelState(width, level, proof, current, |current|, row, next, missing, built)
    ensures MissingSiblings(width, row.Keys, missing) && AllSupplied(proof, level, missing)
    ensures built == CombineRow(width, row, proof, level) && Lists(next, built)
  {
    WalkDone(width, Indexes(current), row.Keys, Indexes(next), missing);
    RowBuilt(width, row, proof, level, next, built);
  }

  lemma PairFolded(width: int, level: int, proof: map<Position, Digest>, current: seq<IndexedHash>, start: int,
                   row: map<int, Digest>, next: seq<IndexedHash>, missing: seq<int>, built: map<int, Digest>,
                   parent: Digest, looked: seq<int>)
    requires Lists(current, row) && (forall i :: i in row ==> 0 <= i < width)
    requires LevelState(width, level, proof, current, start, row, next, missing, built) && start < |current|
    requires var pair := PairAt(Indexes(current), start);
      && parent == Combine(width, row, proof, level, pair.parent)
      && looked == MissingOf(width, pair) && AllSupplied(proof, level, looked)
    ensures var pair := PairAt(Indexes(current), start);
      LevelState(width, level, proof, current, pair.end, row, next + [IndexedHash(pair.parent, parent)],
                 missing + looked,
                 built[pair.parent := parent])
  {
    var pair := PairAt(Indexes(current), start);
    WalkPair(Indexes(current), start, Indexes(next));
    MissingPair(width, Indexes(current), start, Indexes(next), missing);
    BuildPair(width, row, proof, level, next, built, pair.parent, parent);
  }

  lemma BuildPair(width: int, row: map<int, Digest>, proof: map<Position, Digest>, level: int, next: seq<IndexedHash>,
                  built: map<int, Digest>, index: int, parent: Digest)
    requires Built(width, row, proof, level, next, built) && index !in Indexes(next)
    requires parent == Combine(width, row, proof, level, index)
    ensures Indexes(next + [IndexedHash(index, parent)]) == Indexes(next) + [index]
    ensures Built(width, row, proof, level, next + [IndexedHash(index, parent)], built[index := parent])
  {
    var next' := next + [IndexedHash(index, parent)];
    assert Indexes(next') == Indexes(next) + [index];
    assert forall k :: 0 <= k < |next| ==> Indexes(next)[k] in Indexes(next);
  }

  lemma ExtendsUpdate(out0: map<Position, Digest>, level: int, row: map<int, Digest>, out: map<Position, Digest>,
                      index: int, value: Digest)
    requires Extends(out0, level, row, out)
    ensures Extends(out0, level, row[index := value], out[Position(level, index) := value])
  {
    forall p: Position ensures p == Position(level, index) <==> p.level == level && p.index == index {}
  }

  lemma RowBuilt(width: int, row: map<int, Digest>, proof: map<Position, Digest>, level: int, next: seq<IndexedHash>,
                 built: map<int, Digest>)
    requires SameElements(Indexes(next), Parents(row.Keys))
    requires Built(width, row, proof, level, next, built)
    ensures built == CombineRow(width, row, proof, level)
  {
    var above := CombineRow(width, row, proof, level);
    assert built.Keys == above.Keys;
  }

  /** Each sibling of the pair at `start` is in the row, or missing from it, or outside the tree. */
  lemma SiblingValues(width: int, row: map<int, Digest>, proof: map<Position, Digest>, level: int,
                      current: seq<IndexedHash>, start: int, next: seq<int>)
    requires Lists(current, row) && (forall i :: i in row ==> 0 <= i < width)
    requires Walked(Indexes(current), start, next) && start < |current|
    ensures var pair := PairAt(Indexes(current), start);
      var at := if pair.haveLeft then start + 1 else start;
      && pair.parent !in next
      && (pair.haveLeft ==> pair.parent * 2 in row && current[start].hash == row[pair.parent * 2])
      && (!pair.haveLeft ==> pair.parent * 2 !in row && MissingSibling(width, row.Keys, pair.parent * 2))
      && (pair.haveRight ==>
          at < |current| && pair.parent * 2 + 1 in row && current[at].hash == row[pair.parent * 2 + 1])
      && (pair.haveRight ==> pair.parent * 2 + 1 < width)
      && (!pair.haveRight && pair.parent * 2 + 1 < width ==>
           pair.parent * 2 + 1 !in row && MissingSibling(width, row.Keys, pair.parent * 2 + 1))
  {
    PairPresence(Indexes(current), start, next);
    var parent := current[start].index / 2;
    assert current[start].index in row && parent in Parents(row.Keys);
    assert parent * 2 / 2 == parent && (parent * 2 + 1) / 2 == parent;
  }

  ghost predicate SameNodes(a: map<Position, Digest>, b: map<Position, Digest>) {
    (forall p :: p in a <==> p in b) && (forall p :: p in a ==> a[p] == b[p])
  }

  /** What is known when the levels below `level` are folded. */
  ghost predicate FoldState(n: nat, known: map<int, Digest>, proof: map<Position, Digest>, level: nat, width: int,
                            current: seq<IndexedHash>, out: map<Position, Digest>, consumed: seq<Position>) {
    && level <= Height(n)
    && width == Width(n, level)
    && Lists(current, Computed(n, known, proof, level))
    && SameNodes(out, Trace(n, known, proof, level))
    && RequiredBelow(n, known.Keys, level, consumed)
    && (forall p :: p in consumed ==> p in proof)
  }

  lemma StartFold(n: nat, known: map<int, Digest>, proof: map<Position, Digest>, current: seq<IndexedHash>)
    requires Lists(current, known)
    ensures FoldState(n, known, proof, 0, n, current, proof + Lift(0, known), [])
  {
    hide Lists, Height, Lift;
    assert Trace(n, known, proof, 0) == proof + Lift(0, known);
  }

  lemma LevelFoldable(n: nat, known: map<int, Digest>, proof: map<Position, Digest>, level: nat, width: int,
                      current: seq<IndexedHash>, out: map<Position, Digest>, consumed: seq<Position>)
    requires ValidTargets(n, known.Keys) && width > 1
    requires FoldState(n, known, proof, level, width, current, out, consumed)
    ensures level < Height(n) && width == Width(n, level) && (width + 1) / 2 < width
    ensures Lists(current, Computed(n, known, proof, level))
    ensures forall i :: i in Computed(n, known, proof, level) ==> 0 <= i < width
  {
    AtTop(n, level);
    ActiveInRange(n, known.Keys, level);
  }

  lemma Unfoldable(n: nat, known: map<int, Digest>, proof: map<Position, Digest>, level: nat, width: int)
    requires level < Height(n) && width == Width(n, level)
    requires exists i :: MissingSibling(width, Computed(n, known, proof, level).Keys, i) && Position(level, i) !in proof
    ensures !Foldable(n, known, proof)
  {
    var i :| MissingSibling(width, Computed(n, known, proof, level).Keys, i) && Position(level, i) !in proof;
    assert Position(level, i) in NeededSet(n, known.Keys);
  }

  lemma LevelFolded(n: nat, known: map<int, Digest>, proof: map<Position, Digest>, level: nat, width: int,
                    current: seq<IndexedHash>, out: map<Position, Digest>, consumed: seq<Position>,
                    next: seq<IndexedHash>, missing: seq<int>, out': map<Position, Digest>)
    requires level < Height(n)
    requires FoldState(n, known, proof, level, width, current, out, consumed)
    requires MissingSiblings(width, Computed(n, known, proof, level).Keys, missing)
    requires AllSupplied(proof, level, missing)
    requires Lists(next, CombineRow(width, Computed(n, known, proof, level), proof, level))
    requires Extends(out, level + 1, CombineRow(width, Computed(n, known, proof, level), proof, level), out')
    ensures FoldState(n, known, proof, level + 1, (width + 1) / 2, next, out', consumed + AtLevel(level, missing))
  {
    LevelPlanned(n, known.Keys, level, missing, consumed);
    ComputedStep(n, known, proof, level);
    TraceExtended(out, level + 1, Computed(n, known, proof, level + 1), Trace(n, known, proof, level), out');
    forall p | p in consumed + AtLevel(level, missing) ensures p in proof {
      if p !in consumed { LevelSupplied(proof, level, missing, p); }
    }
  }

  lemma TraceExtended(out: map<Position, Digest>, level: int, row: map<int, Digest>, trace: map<Position, Digest>,
                      out': map<Position, Digest>)
    requires SameNodes(out, trace) && Extends(out, level, row, out')
    ensures SameNodes(out', trace + Lift(level, row))
  {}

  lemma LevelSupplied(proof: map<Position, Digest>, level: int, missing: seq<int>, p: Position)
    requires AllSupplied(proof, level, missing) && p in AtLevel(level, missing)
    ensures p in proof
  {
    var k :| 0 <= k < |missing| && AtLevel(level, missing)[k] == p;
    assert missing[k] in missing;
  }

  lemma ComputedStep(n: nat, known: map<int, Digest>, proof: map<Position, Digest>, level: nat)
    ensures Computed(n, known, proof, level + 1)
      == CombineRow(Width(n, level), Computed(n, known, proof, level), proof, level)
    ensures Trace(n, known, proof, level + 1)
         == Trace(n, known, proof, level) + Lift(level + 1, Computed(n, known, proof, level + 1))
    ensures Width(n, level + 1) == (Width(n, level) + 1) / 2
  {}

  lemma FoldDone(n: nat, known: map<int, Digest>, proof: map<Position, Digest>, level: nat, width: int,
                 current: seq<IndexedHash>, out: map<Position, Digest>, consumed: seq<Position>)
    requires ValidTargets(n, known.Keys) && width <= 1
    requires FoldState(n, known, proof, level, width, current, out, consumed)
    ensures |current| == 1 && current[0].hash == FoldRoot(n, known, proof)
    ensures SameNodes(out, FullTrace(n, known, proof))
    ensures |consumed| == |proof| <==> Foldable(n, known, proof)
  {
    AtTop(n, level);
    TopActive(n, known.Keys);
    SingleEntry(current, Computed(n, known, proof, level));
    AllConsumed(n, known, proof, level, consumed);
  }

  lemma AllConsumed(n: nat, known: map<int, Digest>, proof: map<Position, Digest>, level: nat, consumed: seq<Position>)
    requires ValidTargets(n, known.Keys) && level == Height(n)
    requires RequiredBelow(n, known.Keys, level, consumed) && forall p :: p in consumed ==> p in proof
    ensures |consumed| == |proof| <==> Foldable(n, known, proof)
  {
    AllDone(n, known.Keys, level, consumed);
    var needed := NeededSet(n, known.Keys);
    assert |consumed| == |needed|;
    assert needed <= proof.Keys by { assert forall p :: p in needed ==> p in consumed; }
    assert |proof| == |proof.Keys|;
    if |needed| == |proof.Keys| { SubsetOfSameSize(needed, proof.Keys); }
  }

  lemma SingleEntry(current: seq<IndexedHash>, row: map<int, Digest>)
    requires Lists(current, row) && row.Keys == {0}
    ensures |current| == 1 && current[0].hash == row[0]
  {
    assert 0 in Indexes(current);
    assert row.Keys == {0} && |row| == |row.Keys| == 1;
  }

  lemma SubsetOfSameSize<T>(a: set<T>, b: set<T>)
    requires a <= b && |a| == |b|
    ensures a == b
  {
    assert |b| == |a| + |b - a| by { assert b == a + (b - a); }
  }
}
