/** What an accepted range result satisfies, leaf by leaf (internal/all/locator_range.go:521-651). */
module LocatorAcceptance {
  import opened Hashing
  import opened LocatorKeys
  import opened LocatorProofs

  /** Each leaf reconstructs the trusted root, at one depth, with a value for each key; several leaves are not empty,
      distinct, and each names the next; the reported root is the trusted one. */
  lemma AcceptedLeaves(lower: LocatorKey, upper: LocatorKey, result: LocatorRangeResult, trustedRoot: Digest)
    requires Accepts(lower, upper, result, trustedRoot)
    ensures var leaves := result.proof.leaves;
      && leaves != [] && result.proof.reconstructedRoot == trustedRoot && KeyLess(lower, upper)
      && (forall i :: 0 <= i < |leaves| ==> Climbed(leaves[i], |leaves[i].path|) == Ok(trustedRoot))
      && (forall i :: 0 <= i < |leaves| ==> |leaves[i].path| == |leaves[0].path|)
      && (forall i :: 0 <= i < |leaves| ==> |leaves[i].keys| == |leaves[i].values|)
      && (|leaves| > 1 ==> forall i :: 0 <= i < |leaves| ==> leaves[i].keys != [])
      && (forall i, j :: 0 <= i < j < |leaves| ==> leaves[i].pageID != leaves[j].pageID)
      && (forall i :: 0 <= i < |leaves| - 1 ==> leaves[i].nextPageID == Some(leaves[i + 1].pageID))
  {
    hide Answers, EdgesOK, KeyLess, EntriesSorted, FlatEntries;
    var leaves := result.proof.leaves;
    forall i | 0 <= i < |leaves|
      ensures |leaves[i].path| == |leaves[0].path| && |leaves[i].keys| == |leaves[i].values|
      ensures |leaves| > 1 ==> leaves[i].keys != []
    {
      assert LinkOK(leaves, i);
    }
    forall i, j | 0 <= i < j < |leaves| ensures leaves[i].pageID != leaves[j].pageID {
      assert NewLeaf(leaves, j);
    }
    forall i | 0 <= i < |leaves| - 1 ensures leaves[i].nextPageID == Some(leaves[i + 1].pageID) {
      assert LinkOK(leaves, i);
    }
  }

  /** The keys of each leaf are strictly ordered, and the last one of a leaf is less than the first one of the next. */
  lemma AcceptedKeys(lower: LocatorKey, upper: LocatorKey, result: LocatorRangeResult, trustedRoot: Digest, i: nat)
    requires Accepts(lower, upper, result, trustedRoot) && i < |result.proof.leaves|
    ensures var leaves := result.proof.leaves;
      && KeysSorted(leaves[i].keys)
      && (i + 1 < |leaves| ==>
            leaves[i].keys != [] && leaves[i + 1].keys != []
            && KeyLess(leaves[i].keys[|leaves[i].keys| - 1], leaves[i + 1].keys[0]))
  {
    hide Answers, EdgesOK, KeyLess, EntriesSorted, FlatEntries, ReachesRoot;
    var leaves := result.proof.leaves;
    ShorterSorted(leaves, i + 1, |leaves|);
    OwnSorted(leaves, i);
    if i + 1 < |leaves| {
      assert LinkOK(leaves, i) && LinkOK(leaves, i + 1);
      ShorterSorted(leaves, i + 2, |leaves|);
      NextSorted(leaves, i);
    }
  }

  lemma OwnSorted(leaves: seq<LocatorLeafProof>, i: nat)
    requires i < |leaves| && EntriesSorted(FlatEntries(leaves, i + 1))
    ensures KeysSorted(leaves[i].keys)
  {
    hide KeyLess, FlatEntries, EntriesSorted;
    var keys := leaves[i].keys;
    forall x, y | 0 <= x < y < |keys| ensures KeyLess(keys[x], keys[y]) { OwnOrdered(leaves, i, x, y); }
  }

  lemma OwnOrdered(leaves: seq<LocatorLeafProof>, i: nat, x: int, y: int)
    requires i < |leaves| && EntriesSorted(FlatEntries(leaves, i + 1)) && 0 <= x < y < |leaves[i].keys|
    ensures KeyLess(leaves[i].keys[x], leaves[i].keys[y])
  {
    hide KeyLess;
    var before, own, all := FlatEntries(leaves, i), LeafEntries(leaves[i]), FlatEntries(leaves, i + 1);
    assert all == before + own;
    assert all[|before| + x] == own[x] && all[|before| + y] == own[y];
  }

  lemma NextSorted(leaves: seq<LocatorLeafProof>, i: nat)
    requires i + 1 < |leaves| && EntriesSorted(FlatEntries(leaves, i + 2))
    requires leaves[i].keys != [] && leaves[i + 1].keys != []
    ensures KeyLess(leaves[i].keys[|leaves[i].keys| - 1], leaves[i + 1].keys[0])
  {
    hide KeyLess;
    var before, own, next := FlatEntries(leaves, i), LeafEntries(leaves[i]), LeafEntries(leaves[i + 1]);
    var all := FlatEntries(leaves, i + 2);
    assert FlatEntries(leaves, i + 1) == before + own && all == (before + own) + next;
    var x, y := |before| + |own| - 1, |before| + |own|;
    assert all[x] == own[|own| - 1] && all[y] == next[0];
    assert KeyLess(all[x].key, all[y].key);
  }

  /** A missing predecessor is shown by a path along the left edge, and a missing successor by one along the right edge
      from a leaf without a next one. */
  lemma AcceptedEdges(lower: LocatorKey, upper: LocatorKey, result: LocatorRangeResult, trustedRoot: Digest)
    requires Accepts(lower, upper, result, trustedRoot)
    ensures var leaves := result.proof.leaves;
      && leaves != []
      && (result.predecessor.None? ==> forall n :: 0 <= n < |leaves[0].path| ==> leaves[0].path[n].childIndex == 0)
      && (result.successor.None? ==>
            var last := leaves[|leaves| - 1];
            last.nextPageID.None?
            && forall n :: 0 <= n < |last.path| ==> last.path[n].childIndex == |last.path[n].childHashes| - 1)
  {
    hide Answers, KeyLess, ConsecutiveTo, ReachesRoot;
  }
}
