/** The reference Merkle tree: rows built level by level, an unpaired node promoted
    unchanged to the next level. */
module Merkle {
  import opened Hashing

  datatype Position = Position(level: int, index: int)

  /** Number of nodes at a level of a tree with n leaves. */
  function Width(n: nat, level: nat): nat {
    if level == 0 then n else (Width(n, level - 1) + 1) / 2
  }

  /** The first level that holds a single node. */
  function Height(n: nat): nat {
    if n <= 1 then 0 else 1 + Height((n + 1) / 2)
  }

  /** The node above a leaf at a level; also the number of complete nodes of a level over n leaves. */
  function Ancestor(leaf: int, level: nat): int {
    if level == 0 then leaf else Ancestor(leaf, level - 1) / 2
  }

  function Parent(row: seq<Digest>, i: nat): Digest
    requires 2 * i < |row|
  {
    if 2 * i + 1 < |row| then HashPair(row[2 * i], row[2 * i + 1]) else row[2 * i]
  }

  function ParentRow(row: seq<Digest>): (r: seq<Digest>)
    ensures |r| == (|row| + 1) / 2
    ensures forall i :: 0 <= i < |r| ==> r[i] == Parent(row, i)
  {
    seq((|row| + 1) / 2, i requires 0 <= i < (|row| + 1) / 2 => Parent(row, i))
  }

  function Row(leaves: seq<Digest>, level: nat): (r: seq<Digest>)
    ensures |r| == Width(|leaves|, level)
  {
    if level == 0 then leaves else ParentRow(Row(leaves, level - 1))
  }

  /** The single node of the top row. */
  function Root(leaves: seq<Digest>): Digest
    requires leaves != []
  {
    TopWidth(|leaves|);
    Row(leaves, Height(|leaves|))[0]
  }

  predicate InTree(n: nat, p: Position) {
    0 <= p.level <= Height(n) && 0 <= p.index < Width(n, p.level)
  }

  function NodeAt(leaves: seq<Digest>, p: Position): Digest
    requires InTree(|leaves|, p)
  {
    Row(leaves, p.level)[p.index]
  }

  /** Every node of the tree over the leaves. */
  function NodeMap(leaves: seq<Digest>): (m: map<Position, Digest>)
    ensures forall p :: p in m <==> InTree(|leaves|, p)
    ensures forall p :: p in m ==> m[p] == NodeAt(leaves, p)
  {
    map p: Position | p in Positions(|leaves|) :: NodeAt(leaves, p)
  }

  function Positions(n: nat): (s: set<Position>)
    ensures forall p :: p in s <==> InTree(n, p)
  {
    forall l: nat ensures Width(n, l) <= n { WidthAtMost(n, l); }
    assert forall p :: InTree(n, p) ==> p == Position(p.level, p.index) && 0 <= p.index < n;
    set l, i | 0 <= l <= Height(n) && 0 <= i < n && i < Width(n, l) :: Position(l, i)
  }

  /** What building the tree hashes. */
  function TreePreimages(leaves: seq<Digest>): set<Preimage> {
    set p | p in Positions(|leaves|) && HasTwoChildren(|leaves|, p) :: TreePair(leaves, p)
  }

  predicate HasTwoChildren(n: nat, p: Position) {
    InTree(n, p) && p.level > 0 && 2 * p.index + 1 < Width(n, p.level - 1)
  }

  function TreePair(leaves: seq<Digest>, p: Position): Preimage
    requires HasTwoChildren(|leaves|, p)
  {
    NodePair(Row(leaves, p.level - 1)[2 * p.index], Row(leaves, p.level - 1)[2 * p.index + 1])
  }

  lemma {:induction false} WidthAtMost(n: nat, level: nat)
    ensures Width(n, level) <= n
    ensures n > 0 ==> Width(n, level) > 0
    decreases level
  {
    if level > 0 { WidthAtMost(n, level - 1); }
  }

  /** The widths of a tree's upper levels are those of the tree over its first row of parents. */
  lemma {:induction false} WidthOfParents(n: nat, level: nat)
    ensures Width(n, level + 1) == Width((n + 1) / 2, level)
    decreases level
  {
    if level > 0 { WidthOfParents(n, level - 1); }
  }

  lemma {:induction false} TopWidth(n: nat)
    requires n > 0
    ensures Width(n, Height(n)) == 1
    decreases n
  {
    if n > 1 {
      TopWidth((n + 1) / 2);
      WidthOfParents(n, Height((n + 1) / 2));
    }
  }

  /** Below the top every level has at least two nodes. */
  lemma {:induction false} WidthBelowTop(n: nat, level: nat)
    requires level < Height(n)
    ensures Width(n, level) > 1
    decreases n
  {
    if level > 0 {
      WidthBelowTop((n + 1) / 2, level - 1);
      WidthOfParents(n, level - 1);
    }
  }

  /** The level-by-level rows of a tree are those of its first row of parents, one level up. */
  lemma {:induction false} RowOfParents(leaves: seq<Digest>, level: nat)
    ensures Row(leaves, level + 1) == Row(ParentRow(leaves), level)
    decreases level
  {
    if level > 0 { RowOfParents(leaves, level - 1); }
  }

  /** Width tells whether the top has been reached. */
  lemma AtTop(n: nat, level: nat)
    requires n > 0 && level <= Height(n)
    ensures Width(n, level) > 1 <==> level < Height(n)
  {
    if level < Height(n) { WidthBelowTop(n, level); } else { TopWidth(n); }
  }

  lemma {:induction false} AncestorInRange(n: nat, leaf: int, level: nat)
    requires 0 <= leaf < n
    ensures 0 <= Ancestor(leaf, level) < Width(n, level)
    decreases level
  {
    if level > 0 { AncestorInRange(n, leaf, level - 1); }
  }
}
