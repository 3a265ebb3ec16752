/** Inserting a key that is there already (internal/all/locator_tree.go:222-238), and what the range verifier says of
    it. */
module LocatorDuplicates {
  import opened Hashing
  import opened LocatorKeys
  import opened LocatorPages
  import opened LocatorSteps
  import opened LocatorOrder
  import opened LocatorProofs

  /** A leaf stays strictly ordered exactly if the inserted key is new; a key that is there already ends up just before
      its copy. */
  lemma OrderKeptIffNew(page: Page, idx: nat, key: LocatorKey, value: Option<LocatorValue>)
    requires KeysSorted(page.keys) && |page.keys| == |page.values| && IsPlace(page.keys, key, idx)
    ensures var after := WithEntry(page, idx, key, value).keys;
      && (KeysSorted(after) <==> key !in page.keys)
      && (key in page.keys ==> idx > 0 && after[idx - 1] == after[idx] == key)
  {
    hide KeyLess, KeysSorted;
    KeyOrder();
    var after := WithEntry(page, idx, key, value).keys;
    if key in page.keys {
      var i :| 0 <= i < |page.keys| && page.keys[i] == key;
      if i < idx - 1 { SortedAt(page.keys, i, idx - 1); }
      if idx < i { SortedAt(page.keys, idx, i); }
      assert i == idx - 1;
      if KeysSorted(after) { SortedAt(after, idx - 1, idx); }
    } else {
      EntrySorted(page.keys, Span(0, None, None), idx, key);
    }
  }

  lemma SortedAt(keys: seq<LocatorKey>, i: nat, j: nat)
    requires KeysSorted(keys) && i < j < |keys|
    ensures KeyLess(keys[i], keys[j])
  {
    hide KeyLess;
  }

  /** No range proof that holds a leaf with a repeated key is accepted, whatever the root. */
  lemma RepeatedKeyRefused(lower: LocatorKey, upper: LocatorKey, result: LocatorRangeResult, trustedRoot: Digest,
                           i: nat, k: nat)
    requires i < |result.proof.leaves| && k + 1 < |result.proof.leaves[i].keys|
    requires result.proof.leaves[i].keys[k] == result.proof.leaves[i].keys[k + 1]
    ensures !Accepts(lower, upper, result, trustedRoot)
  {
    hide ReachesRoot, Answers, EdgesOK, KeyLess, FlatEntries;
    var leaves := result.proof.leaves;
    if EntriesSorted(FlatEntries(leaves, |leaves|)) {
      ShorterSorted(leaves, i + 1, |leaves|);
      RepeatedUnsorted(leaves, i, k);
    }
  }

  lemma RepeatedUnsorted(leaves: seq<LocatorLeafProof>, i: nat, k: nat)
    requires i < |leaves| && k + 1 < |leaves[i].keys| && leaves[i].keys[k] == leaves[i].keys[k + 1]
    ensures !EntriesSorted(FlatEntries(leaves, i + 1))
  {
    hide KeyLess, EntriesSorted;
    KeyOrder();
    var before, own := FlatEntries(leaves, i), LeafEntries(leaves[i]);
    var all := FlatEntries(leaves, i + 1);
    assert all == before + own;
    assert all[|before| + k] == own[k] && all[|before| + k + 1] == own[k + 1];
    if EntriesSorted(all) { NextGreater(all, |before| + k); }
  }

  lemma NextGreater(entries: seq<LocatorEntry>, n: nat)
    requires EntriesSorted(entries) && n + 1 < |entries|
    ensures KeyLess(entries[n].key, entries[n + 1].key)
  {
    hide KeyLess;
  }
}
