/** The reference tree from above: a tree splits at the greatest power of two below its number of leaves, and every
    node is the root of the tree over the leaves below it (internal/domain/hash.go, internal/hmf/segment_tree.go:63-92).
 */
module MerkleSplits {
  import opened Hashing
  import opened Merkle
  import opened ShardTrees

  lemma {:induction false} WidthOfPower(l: nat, j: nat)
    requires j <= l
    ensures Width(Pow2(l), j) == Pow2(l - j)
    decreases j
  {
    if j > 0 { WidthOfPower(l, j - 1); }
  }

  lemma {:induction false} PowersGrow(l: nat, j: nat)
    requires j <= l
    ensures Pow2(j) <= Pow2(l)
    decreases l
  {
    if j < l { PowersGrow(l - 1, j); }
  }

  lemma HeightOfPower(l: nat)
    ensures Height(Pow2(l)) == l
  {
    HeightIsLeast(Pow2(l), l);
    if l > 0 { HeightIsLeast(Pow2(l), l - 1); }
  }

  /** Above its top the row of a tree stays its root. */
  lemma {:induction false} RowAboveTop(leaves: seq<Digest>, l: nat)
    requires leaves != [] && Height(|leaves|) <= l
    ensures Row(leaves, l) == [Root(leaves)]
    decreases l
  {
    hide Height;
    TopWidth(|leaves|);
    if l > Height(|leaves|) { RowAboveTop(leaves, l - 1); }
  }

  lemma ParentsConcat(a: seq<Digest>, b: seq<Digest>)
    requires |a| % 2 == 0
    ensures ParentRow(a + b) == ParentRow(a) + ParentRow(b)
  {
    var all := a + b;
    forall i | 0 <= i < |ParentRow(all)| ensures ParentRow(all)[i] == (ParentRow(a) + ParentRow(b))[i] {
      if i < |a| / 2 {
        assert all[2 * i] == a[2 * i] && all[2 * i + 1] == a[2 * i + 1];
      } else {
        var j := i - |a| / 2;
        assert all[2 * i] == b[2 * j] && (2 * j + 1 < |b| ==> all[2 * i + 1] == b[2 * j + 1]);
      }
    }
  }

  lemma RowStep(leaves: seq<Digest>, j: nat)
    ensures Row(leaves, j) == if j == 0 then leaves else ParentRow(Row(leaves, j - 1))
  {}

  lemma {:induction false} RowsConcat(a: seq<Digest>, b: seq<Digest>, l: nat, j: nat)
    requires |a| == Pow2(l) && j <= l
    ensures Row(a + b, j) == Row(a, j) + Row(b, j)
    decreases j
  {
    hide ParentRow, Width, Row;
    RowStep(a, j);
    RowStep(b, j);
    RowStep(a + b, j);
    if j > 0 {
      RowsConcat(a, b, l, j - 1);
      WidthOfPower(l, j - 1);
      assert Pow2(l - (j - 1)) == 2 * Pow2(l - j);
      ParentsConcat(Row(a, j - 1), Row(b, j - 1));
    }
  }

  /** The root over more than 2^l and at most 2^(l + 1) leaves is the hash of the root over the first 2^l, on the left,
      and of the root over the others, on the right. */
  lemma RootSplits(a: seq<Digest>, b: seq<Digest>, l: nat)
    requires |a| == Pow2(l) && 0 < |b| <= Pow2(l)
    ensures a != [] && Root(a + b) == H(NodePair(Root(a), Root(b)))
  {
    hide Row, Height, Pow2;
    HeightOfPower(l);
    HeightIsLeast(|b|, l);
    RowsConcat(a, b, l, l);
    RowAboveTop(a, l);
    RowAboveTop(b, l);
    HeightOfBoth(|a|, |b|, l);
    TwoNodes(a + b, l, Root(a), Root(b));
  }

  lemma HeightOfBoth(a: nat, b: nat, l: nat)
    requires a == Pow2(l) && 0 < b <= Pow2(l)
    ensures Height(a + b) == l + 1
  {
    HeightIsLeast(a + b, l);
    HeightIsLeast(a + b, l + 1);
  }

  lemma TwoNodes(leaves: seq<Digest>, l: nat, left: Digest, right: Digest)
    requires leaves != [] && Row(leaves, l) == [left, right] && Height(|leaves|) == l + 1
    ensures Root(leaves) == H(NodePair(left, right))
  {
    assert Row(leaves, l + 1) == ParentRow([left, right]);
  }

  /** The leaves below a node. */
  function LeavesUnder(leaves: seq<Digest>, level: nat, i: nat): seq<Digest>
    requires i * Pow2(level) <= |leaves|
  {
    Slice(leaves, i * Pow2(level), Pow2(level))
  }

  lemma {:induction false} WidthIs(n: nat, level: nat, i: nat)
    ensures i < Width(n, level) <==> i * Pow2(level) < n
    decreases level
  {
    if level > 0 {
      WidthIs(n, level - 1, 2 * i);
      Doubled(i, Pow2(level - 1));
      assert Pow2(level) == 2 * Pow2(level - 1);
      assert 2 * i < Width(n, level - 1) <==> i < (Width(n, level - 1) + 1) / 2;
    }
  }

  /** Every node of a tree is the root of the tree over the leaves below it. */
  lemma {:induction false} NodeIsRoot(leaves: seq<Digest>, level: nat, i: nat)
    requires i < Width(|leaves|, level)
    ensures i * Pow2(level) < |leaves| && LeavesUnder(leaves, level, i) != []
    ensures Row(leaves, level)[i] == Root(LeavesUnder(leaves, level, i))
    decreases level
  {
    hide Root;
    WidthIs(|leaves|, level, i);
    if level == 0 {
      OneLeaf(leaves[i]);
      assert LeavesUnder(leaves, 0, i) == [leaves[i]];
    } else {
      Halves(leaves, level, i);
      NodeIsRoot(leaves, level - 1, 2 * i);
      if 2 * i + 1 < Width(|leaves|, level - 1) {
        NodeIsRoot(leaves, level - 1, 2 * i + 1);
        RootSplits(LeavesUnder(leaves, level - 1, 2 * i), LeavesUnder(leaves, level - 1, 2 * i + 1), level - 1);
      }
    }
  }

  lemma OneLeaf(leaf: Digest)
    ensures Root([leaf]) == leaf
  {}

  lemma Halves(leaves: seq<Digest>, level: nat, i: nat)
    requires level > 0 && i * Pow2(level) < |leaves|
    ensures 2 * i * Pow2(level - 1) < |leaves| && 2 * i < Width(|leaves|, level - 1)
    ensures 2 * i + 1 < Width(|leaves|, level - 1) <==> (2 * i + 1) * Pow2(level - 1) < |leaves|
    ensures (2 * i + 1) * Pow2(level - 1) < |leaves| ==>
      var a, b := LeavesUnder(leaves, level - 1, 2 * i), LeavesUnder(leaves, level - 1, 2 * i + 1);
      |a| == Pow2(level - 1) && 0 < |b| <= Pow2(level - 1) && LeavesUnder(leaves, level, i) == a + b
    ensures (2 * i + 1) * Pow2(level - 1) >= |leaves| ==>
      LeavesUnder(leaves, level, i) == LeavesUnder(leaves, level - 1, 2 * i)
  {
    hide Width;
    WidthIs(|leaves|, level - 1, 2 * i);
    WidthIs(|leaves|, level - 1, 2 * i + 1);
    var p := Pow2(level - 1);
    Doubled(i, p);
    HalvesAt(leaves, i * (2 * p), p);
  }

  lemma Doubled(i: nat, p: nat)
    ensures 2 * i * p == i * (2 * p) && (2 * i + 1) * p == i * (2 * p) + p
  {}

  function Slice(leaves: seq<Digest>, from: nat, size: nat): seq<Digest>
    requires from <= |leaves|
  {
    if |leaves[from..]| <= size then leaves[from..] else leaves[from..][..size]
  }

  lemma HalvesAt(leaves: seq<Digest>, from: nat, p: nat)
    requires from < |leaves| && p > 0
    ensures from + p < |leaves| ==>
      var a, b := Slice(leaves, from, p), Slice(leaves, from + p, p);
      |a| == p && 0 < |b| <= p && Slice(leaves, from, 2 * p) == a + b
    ensures from + p >= |leaves| ==> Slice(leaves, from, 2 * p) == Slice(leaves, from, p)
  {}
}
