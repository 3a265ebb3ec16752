/** The authenticated B+ tree of locators (internal/all/locator_tree.go). */
module LocatorTrees {
  import opened Hashing
  import opened Sorting
  import opened ProofTypes
  import opened LocatorKeys
  import opened LocatorPages
  import opened LocatorSteps
  import opened LocatorTracking
  import opened LocatorSplits
  import opened LocatorChanges

  type Contents = map<LocatorKey, Option<LocatorValue>>

  /** Every changed page and the tree state after an insertion. */
  datatype LocatorUpdate = LocatorUpdate(
    pages: seq<Page>, rootPageID: int, rootHash: Digest, nextPageID: int, height: int, recordCount: int)

  ghost predicate AllHashed(pages: Pages) {
    forall p :: p in pages ==> HashOK(pages, p)
  }

  /** A B+ tree whose page hashes are those of their contents. */
  ghost predicate IsTree(pages: Pages, spans: Spans, root: int, rootHash: Digest, next: int, height: int, order: int) {
    && Shape(pages, spans, root, height) && height >= 0 && order >= 3 && (forall p :: p in pages ==> p < next)
    && Sized(pages, order, None) && AllHashed(pages) && root in pages && rootHash == pages[root].hash
  }

  ghost predicate IsContents(pages: Pages, contents: Contents) {
    forall k, v :: HasEntry(pages, k, v) <==> k in contents && contents[k] == v
  }

  /** A page on the way up from the changed leaf: the pages below it are done. */
  ghost predicate Climbing(before: Pages, base: Pages, pages: Pages, spans: Spans, root: int, height: int, next: int,
                           order: int, anchor: LocatorKey, updates: set<int>, p: int) {
    && Shape(pages, spans, root, height) && height >= 0 && order >= 3 && (forall x :: x in pages ==> x < next)
    && p in pages && p in spans && Covers(spans[p], anchor)
    && Track(before, pages, spans, anchor, spans[p].level, updates)
    && (forall x :: x in updates ==> x in pages) && SameEntries(base, pages) && Sized(pages, order, None)
  }

  /** All hashes are right, and what is not listed as updated is unchanged. */
  ghost predicate Finished(before: Pages, base: Pages, pages: Pages, spans: Spans, root: int, height: int, next: int,
                           order: int, updates: set<int>) {
    && Shape(pages, spans, root, height) && height >= 0 && order >= 3 && (forall x :: x in pages ==> x < next)
    && AllHashed(pages) && (forall x :: x in pages && x !in updates ==> Unchanged(before, pages, x))
    && (forall x :: x in updates ==> x in pages) && SameEntries(base, pages) && Sized(pages, order, None)
  }

  class LocatorTree {
    const order: int
    var pages: Pages
    var rootPageID: int
    var rootHash: Digest
    var nextPageID: int
    var height: int
    var leafCount: int
    ghost var spans: Spans
    ghost var contents: Contents

    ghost predicate Valid()
      reads this
    {
      && IsTree(pages, spans, rootPageID, rootHash, nextPageID, height, order) && IsContents(pages, contents)
      && leafCount == |contents|
    }

    constructor (order: int)
      requires order >= 3
      ensures Valid() && contents == map[] && this.order == order
    {
      var page := Page(0, 0, true, [], [], None, [], None);
      var hash := H(LeafPage(0, None, [], []));
      this.order := order;
      rootPageID, nextPageID, height, leafCount := 0, 1, 0, 0;
      pages := map[0 := page.(hash := hash)];
      rootHash := hash;
      spans := map[0 := Span(0, None, None)];
      contents := map[];
      new;
      FirstPage(pages, spans, order, hash);
    }

    /** Adds a record and returns every changed page and the final tree state. */
    method InsertWithUpdate(key: LocatorKey, value: Option<LocatorValue>) returns (update: LocatorUpdate)
      requires Valid() && key !in contents
      modifies this
      ensures Valid() && contents == old(contents)[key := value]
      ensures update.rootPageID == rootPageID && update.rootHash == rootHash && update.nextPageID == nextPageID
      ensures update.height == height && update.recordCount == leafCount == old(leafCount) + 1
      ensures Suffices(old(pages), pages, update.pages) && ListsChanges(old(pages), pages, update.pages)
    {
      hide IsTree, IsContents, Suffices, OnlyChanged, ListsChanges;
      ghost var before := pages;
      Rooted();
      var updates := Insert(key, value, rootPageID);
      PageIDs();
      UpdatesSuffice(before, pages, updates);
      UpdatesChanged(before, pages, updates);
      update := LocatorUpdate(PagesOf(pages, updates), rootPageID, rootHash, nextPageID, height, leafCount);
    }

    lemma Rooted()
      requires Valid()
      ensures rootPageID in pages && rootPageID in spans && spans[rootPageID] == Span(height, None, None)
    {
      hide PageOK, Sized, AllHashed, IsContents;
      PageAt(pages, spans, rootPageID, height, rootPageID);
    }

    lemma PageIDs()
      requires Valid()
      ensures forall p :: p in pages ==> pages[p].pageID == p
    {
      hide LeafOK, InnerOK, Placed, Sized, AllHashed, IsContents;
    }

    /** Descends to the leaf for the key and inserts there. */
    method Insert(key: LocatorKey, value: Option<LocatorValue>, cur: int) returns (updates: set<int>)
      requires Valid() && key !in contents && cur in pages && cur in spans && Covers(spans[cur], key)
      modifies this
      ensures Valid() && contents == old(contents)[key := value] && leafCount == old(leafCount) + 1
      ensures (forall p :: p in updates ==> p in pages)
        && forall p :: p in pages && p !in updates ==> Unchanged(old(pages), pages, p)
      ensures (forall p :: p in old(pages) ==> p in pages) && OnlyChanged(old(pages), pages, updates)
      decreases spans[cur].level
    {
      hide IsTree, IsContents, Covers, Unchanged, OnlyChanged;
      var page := pages[cur];
      LevelAt(cur);
      var idx := FindKeyIdx(page.keys, key);
      if !page.isLeaf {
        ChildFor(cur, key, idx);
        updates := Insert(key, value, page.children[idx]);
        return;
      }
      updates := InsertInLeaf(key, value, cur, idx);
    }

    lemma LevelAt(cur: int)
      requires Valid() && cur in pages && cur in spans
      ensures spans[cur].level >= 0 && KeysSorted(pages[cur].keys)
      ensures pages[cur].isLeaf ==> |pages[cur].values| == |pages[cur].keys| && spans[cur].level == 0
    {
      hide KeysSorted, Covers, StrictlyIn, Placed, Sized, AllHashed, IsContents, NextOK;
      PageAt(pages, spans, rootPageID, height, cur);
    }

    lemma ChildFor(cur: int, key: LocatorKey, idx: nat)
      requires Valid() && cur in pages && cur in spans && !pages[cur].isLeaf && Covers(spans[cur], key)
      requires IsPlace(pages[cur].keys, key, idx)
      ensures idx < |pages[cur].children| && pages[cur].children[idx] in pages && pages[cur].children[idx] in spans
      ensures Covers(spans[pages[cur].children[idx]], key) && spans[pages[cur].children[idx]].level < spans[cur].level
    {
      hide KeysSorted, StrictlyIn, Placed, Sized, AllHashed, IsContents, KeyLess, LeafOK;
      PageAt(pages, spans, rootPageID, height, cur);
      assert ChildOK(pages, spans, cur, idx);
    }

    /** Puts the record into its leaf, which is halved if it is full then; the other leaves keep their records. */
    method InsertInLeaf(key: LocatorKey, value: Option<LocatorValue>, cur: int, idx: nat) returns (updates: set<int>)
      requires Valid() && key !in contents && cur in pages && cur in spans && Covers(spans[cur], key)
      requires pages[cur].isLeaf
      requires |pages[cur].values| == |pages[cur].keys| && IsPlace(pages[cur].keys, key, idx) && spans[cur].level == 0
      modifies this
      ensures Valid() && contents == old(contents)[key := value] && leafCount == old(leafCount) + 1
      ensures (forall p :: p in updates ==> p in pages)
        && forall p :: p in pages && p !in updates ==> Unchanged(old(pages), pages, p)
      ensures (forall p :: p in old(pages) ==> p in pages) && OnlyChanged(old(pages), pages, updates)
      ensures LeafOutcome(WithEntry(old(pages[cur]), idx, key, value), pages, cur, old(nextPageID), order)
      ensures forall p :: p in old(pages) && p in old(spans) && p != cur && old(spans)[p].level == 0 ==>
        p in pages && SameRecords(old(pages)[p], pages[p])
    {
      hide IsTree, IsContents, Covers, Unchanged, Mid, Finished, SameEntries, LeafHalved, Touching, AboveKept, Gained,
        PathUpwards, OnlyChanged;
      ghost var before := pages;
      EntryMid(pages, spans, rootPageID, rootHash, nextPageID, height, order, contents, cur, idx, key, value);
      pages := pages[cur := WithEntry(pages[cur], idx, key, value)];
      ghost var base, anchor := pages, pages[cur].keys[0];
      ghost var page, spans0, right := pages[cur], spans, nextPageID;
      EntryTouches(before, spans, cur, page);
      updates := {};
      if |pages[cur].keys| >= order {
        updates := LeafSplit(cur, updates, before, base, anchor);
      } else {
        NotOverfull(before, base, pages, spans, rootPageID, height, nextPageID, order, anchor, updates, cur);
        NothingCut(pages, spans, cur);
      }
      ghost var stale, touched, path := pages, updates, [];
      leafCount := leafCount + 1;
      updates, path := UpdatePathHashes(cur, updates, before, base, anchor);
      OutcomeIs(page, base, spans0, stale, spans, pages, cur, right, order);
      contents := contents[key := value];
      InsertDone(before, base, pages, spans, rootPageID, rootHash, nextPageID, height, order, updates, contents);
      InsertChanged(before, old(spans), old(rootPageID), old(rootHash), old(nextPageID), old(height), stale, pages,
                    spans, rootPageID, rootHash, nextPageID, height, order, cur, page, right, path, touched, updates);
    }

    /** Splits an overfull leaf and hands the right half to its parent. */
    method LeafSplit(x: int, updates0: set<int>, ghost before: Pages, ghost base: Pages,
                     ghost anchor: LocatorKey) returns (updates: set<int>)
      requires Overfull(before, base, pages, spans, rootPageID, height, nextPageID, order, anchor, updates0, x)
      requires pages[x].isLeaf && |pages[x].values| == |pages[x].keys| && anchor == pages[x].keys[0]
      requires spans[x].level == 0 && Touching(before, pages, updates0) && AboveKept(before, pages, spans, 0)
      requires Gained(before, pages, x)
      modifies this`pages, this`rootPageID, this`rootHash, this`nextPageID, this`height, this`spans
      ensures Mid(before, base, pages, spans, rootPageID, height, nextPageID, order, anchor, updates, None)
      ensures x in pages && x in spans && spans[x].level == 0 && Covers(spans[x], anchor)
      ensures |old(pages[x]).keys| == order && LeafHalved(old(pages[x]), pages, x, old(nextPageID), order)
      ensures OthersKept(old(pages), old(spans), pages, spans, x, 0) && Touching(before, pages, updates)
    {
      hide PairMid, Mid, Covers, PageHash, KeptTo, OthersKept, Touching, AboveKept, Gained;
      OrderAtLeast(before, base, pages, spans, rootPageID, height, nextPageID, order, anchor, updates0, Some(x));
      var page := pages[x];
      var mid := |page.keys| / 2;
      var rightKeys, rightValues := page.keys[mid..], page.values[mid..];
      var right := nextPageID;
      nextPageID := nextPageID + 1;
      var leftHash := PageHash(pages, page);
      var rightHash := H(LeafPage(right, page.next, rightKeys, rightValues));
      LeafCut(before, base, pages, spans, rootPageID, height, right, order, anchor, updates0, x, leftHash);
      LeafCutCovers(before, base, pages, spans, rootPageID, height, right, order, anchor, updates0, x);
      pages := pages[x := LeftLeaf(page, mid, right, leftHash)]
                    [right := Page(right, rightHash, true, rightKeys, rightValues, page.next, [], page.parent)];
      spans := CutSpans(spans, x, right, rightKeys[0]);
      ghost var cut, cutSpans := pages, spans;
      LeafCutOthers(old(pages), old(spans), cut, cutSpans, x, right, rightKeys[0]);
      LeafCutTouches(before, old(pages), old(spans), updates0, x, right, rightKeys[0], order, cut);
      updates := InsertParent(x, right, rightKeys[0], updates0 + {x, right}, before, base, anchor);
      LeafHalvesKept(page, cut, cutSpans, pages, spans, x, right, order);
      CutThenKept(old(pages), old(spans), cut, cutSpans, pages, spans, x, 0);
      MidDomain(before, base, pages, spans, rootPageID, height, nextPageID, order, anchor, updates, None);
    }

    /** Gives the parent of a cut page the separator and the right half; a root gets a new root above it. */
    method InsertParent(cur: int, right: int, sep: LocatorKey, updates0: set<int>, ghost before: Pages,
                        ghost base: Pages, ghost anchor: LocatorKey)
      returns (updates: set<int>)
      requires PairMid(before, base, pages, spans, rootPageID, height, nextPageID, order, anchor, updates0, cur, right,
                       sep)
      requires cur in spans && right !in before && Touching(before, pages, updates0)
      requires AboveKept(before, pages, spans, spans[cur].level)
      modifies this`pages, this`rootPageID, this`rootHash, this`nextPageID, this`height, this`spans
      ensures Mid(before, base, pages, spans, rootPageID, height, nextPageID, order, anchor, updates, None)
      ensures KeptTo(old(pages), old(spans), pages, spans, old(spans[cur]).level) && Touching(before, pages, updates)
      decreases height - spans[cur].level, order, 0
    {
      hide Mid, Covers, PairMid, PageHash, KeptTo, Touching, AboveKept, Gained;
      ghost var pages0, spans0 := pages, spans;
      PairLevels(before, base, pages, spans, rootPageID, height, nextPageID, order, anchor, updates0, cur, right, sep);
      var parent;
      if pages[cur].parent.None? {
        NewRootGiven(before, base, pages, spans, rootPageID, height, nextPageID, order, anchor, updates0, cur, right,
                     sep);
        parent := nextPageID;
        nextPageID := nextPageID + 1;
        var hash := H(InternalPage([sep], [pages[cur].hash, pages[right].hash]));
        pages := pages[cur := pages[cur].(parent := Some(parent))][right := pages[right].(parent := Some(parent))]
                      [parent := Page(parent, hash, false, [sep], [], None, [cur, right], None)];
        spans := GrownSpans(spans, parent, height);
        height := height + 1;
        updates := updates0 + {cur, right, parent};
        rootPageID, rootHash := parent, hash;
      } else {
        OldParentGiven(before, base, pages, spans, rootPageID, height, nextPageID, order, anchor, updates0, cur, right,
                       sep);
        parent := pages[cur].parent.value;
        var idx := IndexIn(pages[parent].children, cur);
        pages := pages[parent := WithPair(pages[parent], idx, sep, right)];
        updates := updates0 + {parent, right};
      }
      ghost var paired, pairedSpans := pages, spans;
      PairedKept(pages0, spans0, cur, right, sep, parent, paired, pairedSpans, spans0[cur].level);
      PairTouches(before, pages0, spans0, updates0, cur, right, sep, parent, spans);
      assert updates == updates0 + {cur, right, parent};
      updates := InternalSplit(parent, updates, before, base, anchor);
      KeptBelow(paired, pairedSpans, pages, spans, parent, pairedSpans[parent].level);
      KeptThrough(pages0, spans0, paired, pairedSpans, pages, spans, spans0[cur].level);
    }

    /** Splits an internal page that has too many children. */
    method InternalSplit(x: int, updates0: set<int>, ghost before: Pages, ghost base: Pages,
                         ghost anchor: LocatorKey) returns (updates: set<int>)
      requires Mid(before, base, pages, spans, rootPageID, height, nextPageID, order, anchor, updates0, Some(x))
      requires x in pages && x in spans && Splittable(pages[x], order) && Covers(spans[x], anchor)
      requires Touching(before, pages, updates0) && AboveKept(before, pages, spans, spans[x].level)
      requires Gained(before, pages, x)
      modifies this`pages, this`rootPageID, this`rootHash, this`nextPageID, this`height, this`spans
      ensures Mid(before, base, pages, spans, rootPageID, height, nextPageID, order, anchor, updates, None)
      ensures OthersKept(old(pages), old(spans), pages, spans, x, old(spans[x]).level)
      ensures Touching(before, pages, updates)
      ensures |old(pages[x]).children| == |old(pages[x]).keys| + 1
      ensures if |old(pages[x]).children| <= order then pages == old(pages) && spans == old(spans)
        else InnerHalved(old(pages[x]), pages, x, old(nextPageID), order)
      decreases height - spans[x].level, |pages[x].keys|, 1
    {
      hide Mid, Covers, PairMid, CutSpans, CutInnerOf, Moved, Adopted, ChildHashes, LeftInner, KeptTo, OthersKept,
        Touching, AboveKept, Gained;
      InnerAtMid(before, base, pages, spans, rootPageID, height, nextPageID, order, anchor, updates0, x);
      var page := pages[x];
      if |page.children| <= order {
        NothingCut(pages, spans, x);
        return updates0;
      }
      var mid := |page.keys| / 2;
      assert mid == order / 2;
      var sep := page.keys[mid];
      var rightKeys, rightChildren := page.keys[mid + 1..], page.children[mid + 1..];
      var right := nextPageID;
      ghost var uncut := pages;
      nextPageID := nextPageID + 1;
      InnerCut(before, base, pages, spans, rootPageID, height, right, order, anchor, updates0, x);
      InnerCutTouches(before, pages, spans, updates0, x, mid, right, sep);
      updates := AdoptAll(rightChildren, right, updates0);
      AdoptedHashes(uncut, x, mid, right);
      var rightHash := H(InternalPage(rightKeys, ChildHashes(pages, rightChildren)));
      var leftHash := H(InternalPage(page.keys[..mid], ChildHashes(pages, page.children[..mid + 1])));
      pages := pages[x := LeftInner(page, mid, leftHash)][right := Page(right, rightHash, false, rightKeys, [], None,
                                                                        rightChildren, page.parent)];
      spans := CutSpans(spans, x, right, sep);
      MovedIs(page, mid, updates0, updates, {x, right});
      updates := updates + {x, right};
      ghost var cut, cutSpans := pages, spans;
      InnerCutOthers(uncut, old(spans), x, mid, right, sep);
      updates := InsertParent(x, right, sep, updates, before, base, anchor);
      InnerHalvesKept(page, uncut, old(spans), pages, spans, x, right, sep, order);
      CutThenKept(uncut, old(spans), cut, cutSpans, pages, spans, x, old(spans[x]).level);
    }

    /** The children's parent becomes the right half. */
    method AdoptAll(children: seq<int>, right: int, updates0: set<int>) returns (updates: set<int>)
      requires forall c :: c in children ==> c in pages
      modifies this`pages
      ensures pages == Adopted(old(pages), children, right)
      ensures forall p :: p in updates <==> p in updates0 || p in children
    {
      updates := updates0;
      for i := 0 to |children|
        invariant pages == Adopted(old(pages), children[..i], right)
        invariant forall p :: p in updates <==> p in updates0 || p in children[..i]
      {
        var c := children[i];
        assert c in children && children[..i + 1] == children[..i] + [c];
        AdoptOne(old(pages), children[..i], right, c);
        pages := pages[c := pages[c].(parent := Some(right))];
        updates := updates + {c};
      }
      assert children[..|children|] == children;
    }

    /** Recomputes the hashes from a leaf up to the root. */
    method UpdatePathHashes(leaf: int, updates0: set<int>, ghost before: Pages, ghost base: Pages,
                            ghost anchor: LocatorKey)
      returns (updates: set<int>, ghost path: seq<int>)
      requires Mid(before, base, pages, spans, rootPageID, height, nextPageID, order, anchor, updates0, None)
      requires leaf in pages && leaf in spans && spans[leaf].level == 0 && Covers(spans[leaf], anchor)
      modifies this`pages, this`rootPageID, this`rootHash
      ensures Finished(before, base, pages, spans, rootPageID, height, nextPageID, order, updates)
      ensures rootPageID in pages && rootHash == pages[rootPageID].hash
      ensures OnlyHashes(old(pages), pages) && PathUpwards(pages, leaf, path)
      ensures forall p :: p in updates ==> p in updates0 || p in path
    {
      hide Mid, Climbing, Finished, Covers, PageHash;
      var p := leaf;
      updates, path := updates0, [leaf];
      StartClimb(before, base, pages, spans, rootPageID, height, nextPageID, order, anchor, updates, p);
      while true
        invariant Climbing(before, base, pages, spans, rootPageID, height, nextPageID, order, anchor, updates, p)
        invariant p in pages && p in spans && spans[p].level <= height && rootPageID == old(rootPageID)
        invariant OnlyHashes(old(pages), pages) && PathUpwards(pages, leaf, path) && path[|path| - 1] == p
        invariant forall p :: p in updates ==> p in updates0 || p in path
        decreases height - spans[p].level
      {
        Climb(before, base, pages, spans, rootPageID, height, nextPageID, order, anchor, updates, p);
        pages := pages[p := pages[p].(hash := PageHash(pages, pages[p]))];
        updates := updates + {p};
        if pages[p].parent.None? { break; }
        p := pages[p].parent.value;
        path := path + [p];
      }
      rootPageID, rootHash := p, pages[p].hash;
    }
  }

  /** The position of a key among sorted keys. */
  method FindKeyIdx(keys: seq<LocatorKey>, key: LocatorKey) returns (idx: nat)
    ensures IsPlace(keys, key, idx)
  {
    idx := |keys|;
    for i := 0 to |keys|
      invariant idx == |keys| && forall j :: 0 <= j < i ==> KeyAtMost(keys[j], key)
    {
      if KeyLess(key, keys[i]) { return i; }
    }
  }

  /** Identifiers in ascending order. */
  function Ascending(updates: set<int>): (ids: seq<int>)
    ensures |ids| == |updates| && forall i, j :: 0 <= i < j < |ids| ==> ids[i] < ids[j]
    ensures (forall i :: 0 <= i < |ids| ==> ids[i] in updates)
      && forall p :: p in updates ==> exists i :: 0 <= i < |ids| && ids[i] == p
  {
    IntOrder();
    var ids := SortSet(IntLess, updates);
    assert forall i, j :: 0 <= i < j < |ids| ==> IntLess(ids[i], ids[j]);
    assert forall i :: 0 <= i < |ids| ==> ids[i] in ids;
    assert forall p :: p in updates ==> p in ids;
    ids
  }

  /** The updated pages, in the order of their identifiers. */
  function PagesOf(pages: Pages, updates: set<int>): (r: seq<Page>)
    requires forall p :: p in updates ==> p in pages
    ensures |r| == |updates| && (forall p :: p in updates ==> pages[p] in r)
    ensures forall i :: 0 <= i < |r| ==> exists p :: p in updates && r[i] == pages[p]
  {
    hide Ascending;
    var ids := Ascending(updates);
    var r := seq(|ids|, i requires 0 <= i < |ids| => pages[ids[i]]);
    assert forall p :: p in updates ==> pages[p] in r by {
      forall p | p in updates ensures pages[p] in r {
        var i :| 0 <= i < |ids| && ids[i] == p;
        assert r[i] == pages[p];
      }
    }
    assert forall i :: 0 <= i < |r| ==> ids[i] in updates && r[i] == pages[ids[i]];
    r
  }

  lemma PagesAscend(pages: Pages, updates: set<int>)
    requires forall p :: p in updates ==> p in pages && pages[p].pageID == p
    ensures var r := PagesOf(pages, updates); forall i, j :: 0 <= i < j < |r| ==> r[i].pageID < r[j].pageID
  {
    hide Ascending;
    var r, ids := PagesOf(pages, updates), Ascending(updates);
    assert forall i :: 0 <= i < |r| ==> ids[i] in updates && r[i] == pages[ids[i]];
  }

  // ---- What the pages returned by an insertion are good for ----

  /** A page as it is stored: its children with their hashes. */
  datatype StoredPage = StoredPage(page: Page, childHashes: seq<Digest>)

  function Stored(pages: Pages, page: Page): StoredPage {
    StoredPage(page, ChildHashes(pages, page.children))
  }

  type PageStore = map<int, StoredPage>

  ghost predicate StoreMatches(store: PageStore, pages: Pages) {
    (forall p :: p in store <==> p in pages) && forall p :: p in pages ==> store[p] == Stored(pages, pages[p])
  }

  /** Overwrites the stored pages with the returned ones. */
  function Overwrite(store: PageStore, pages: Pages, updates: seq<Page>): PageStore {
    if updates == [] then store
    else
      var last := updates[|updates| - 1];
      Overwrite(store, pages, updates[..|updates| - 1])[last.pageID := Stored(pages, last)]
  }

  /** Any store that matched the old tree matches the new one once the updates are written. */
  ghost predicate Suffices(before: Pages, pages: Pages, updates: seq<Page>) {
    forall store :: StoreMatches(store, before) ==> StoreMatches(Overwrite(store, pages, updates), pages)
  }

  /** Up to a level the pages keep their intervals and, but for their parents, their contents. */
  ghost predicate KeptTo(pages: Pages, spans: Spans, pages': Pages, spans': Spans, level: int) {
    forall p :: p in pages && p in spans && spans[p].level <= level ==>
      && p in pages' && p in spans' && spans'[p] == spans[p] && pages'[p] == pages[p].(parent := pages'[p].parent)
  }

  /** So do all pages up to a level but one. */
  ghost predicate OthersKept(pages: Pages, spans: Spans, pages': Pages, spans': Spans, x: int, level: int) {
    forall p :: p in pages && p in spans && p != x && spans[p].level <= level ==>
      && p in pages' && p in spans' && spans'[p] == spans[p] && pages'[p] == pages[p].(parent := pages'[p].parent)
  }

  lemma KeptBelow(pages: Pages, spans: Spans, pages': Pages, spans': Spans, x: int, level: int)
    requires x in spans && OthersKept(pages, spans, pages', spans', x, level) && spans[x].level == level
    ensures KeptTo(pages, spans, pages', spans', level - 1)
  {}

  lemma CutThenKept(pages: Pages, spans: Spans, cut: Pages, cutSpans: Spans, pages': Pages, spans': Spans, x: int,
                    level: int)
    requires OthersKept(pages, spans, cut, cutSpans, x, level) && KeptTo(cut, cutSpans, pages', spans', level)
    ensures OthersKept(pages, spans, pages', spans', x, level)
  {}

  lemma KeptThrough(pages: Pages, spans: Spans, pages': Pages, spans': Spans, pages'': Pages, spans'': Spans,
                    level: int)
    requires KeptTo(pages, spans, pages', spans', level) && KeptTo(pages', spans', pages'', spans'', level)
    ensures KeptTo(pages, spans, pages'', spans'', level)
  {}

  /** A full leaf was cut in the middle: the first half of its records stays, the page on its right takes the others. */
  ghost predicate LeafHalved(page: Page, pages: Pages, x: int, right: int, order: int)
    requires |page.keys| == |page.values| == order >= 0
  {
    && x in pages && right in pages && pages[x].isLeaf && pages[right].isLeaf
    && pages[x].keys == page.keys[..order / 2] && pages[x].values == page.values[..order / 2]
    && pages[right].keys == page.keys[order / 2..] && pages[right].values == page.values[order / 2..]
    && pages[x].next == Some(right) && pages[right].next == page.next
  }

  /** The leaf after a record was put into it. */
  ghost predicate LeafOutcome(page: Page, pages: Pages, x: int, right: int, order: int)
    requires |page.keys| == |page.values| <= order && order >= 0
  {
    x in pages && if |page.keys| < order then SameRecords(page, pages[x]) else LeafHalved(page, pages, x, right, order)
  }

  predicate SameRecords(page: Page, page': Page) {
    page'.isLeaf == page.isLeaf && page'.keys == page.keys && page'.values == page.values && page'.next == page.next
  }

  ghost predicate OnlyHashes(pages: Pages, pages': Pages) {
    forall p :: p in pages ==> p in pages' && pages'[p] == pages[p].(hash := pages'[p].hash)
  }

  lemma OutcomeIs(page: Page, pages: Pages, spans: Spans, stale: Pages, spans': Spans, pages': Pages, x: int,
                  right: int, order: int)
    requires x in pages && pages[x] == page && |page.keys| == |page.values| <= order && order >= 0
    requires OthersKept(pages, spans, stale, spans', x, 0) && OnlyHashes(stale, pages')
    requires if |page.keys| < order then stale == pages else LeafHalved(page, stale, x, right, order)
    ensures LeafOutcome(page, pages', x, right, order)
    ensures forall p :: p in pages && p in spans && p != x && spans[p].level == 0 ==>
      p in pages' && SameRecords(pages[p], pages'[p])
  {}

  /** A full internal page was cut at its middle separator, which neither half keeps. */
  ghost predicate InnerHalved(page: Page, pages: Pages, x: int, right: int, order: int)
    requires |page.keys| == order > 0 && |page.children| == order + 1
  {
    && x in pages && right in pages && !pages[x].isLeaf && !pages[right].isLeaf
    && pages[x].keys == page.keys[..order / 2] && pages[x].children == page.children[..order / 2 + 1]
    && pages[right].keys == page.keys[order / 2 + 1..] && pages[right].children == page.children[order / 2 + 1..]
  }

  // ---- Lemmas ----

  lemma FirstPage(pages: Pages, spans: Spans, order: int, hash: Digest)
    requires order >= 3 && hash == H(LeafPage(0, None, [], []))
    requires pages == map[0 := Page(0, hash, true, [], [], None, [], None)] && spans == map[0 := Span(0, None, None)]
    ensures IsTree(pages, spans, 0, hash, 1, 0, order) && IsContents(pages, map[])
  {
    assert forall k, v :: !HasEntry(pages, k, v);
  }

  lemma OrderAtLeast(before: Pages, base: Pages, pages: Pages, spans: Spans, root: int, height: int, next: int,
                     order: int, anchor: LocatorKey, updates: set<int>, except: Option<int>)
    requires Mid(before, base, pages, spans, root, height, next, order, anchor, updates, except)
    ensures order >= 3
  {
    hide Shape, Track, SameEntries, Sized;
  }

  lemma MidDomain(before: Pages, base: Pages, pages: Pages, spans: Spans, root: int, height: int, next: int, order: int,
                  anchor: LocatorKey, updates: set<int>, except: Option<int>)
    requires Mid(before, base, pages, spans, root, height, next, order, anchor, updates, except)
    ensures forall p :: p in pages <==> p in spans
  {
    hide Track, SameEntries, Sized, PageOK, Placed;
  }

  lemma LeafCutCovers(before: Pages, base: Pages, pages: Pages, spans: Spans, root: int, height: int, next: int,
                      order: int, anchor: LocatorKey, updates: set<int>, x: int)
    requires Overfull(before, base, pages, spans, root, height, next, order, anchor, updates, x)
    requires pages[x].isLeaf && anchor == pages[x].keys[0]
    ensures var cut := CutSpans(spans, x, next, pages[x].keys[order / 2]);
      x in cut && Covers(cut[x], anchor) && cut[x].level == spans[x].level && next !in spans && next !in pages
  {
    hide Shape, Track, SameEntries, Sized, KeyLess, Placed, NextOK, InnerOK;
    ShapeDomain(pages, spans, root, height);
    PageAt(pages, spans, root, height, x);
    assert KeyLess(pages[x].keys[0], pages[x].keys[order / 2]);
  }

  lemma MoreUpdates(before: Pages, base: Pages, pages: Pages, spans: Spans, root: int, height: int, next: int,
                    order: int, anchor: LocatorKey, updates: set<int>, updates': set<int>, except: Option<int>)
    requires Mid(before, base, pages, spans, root, height, next, order, anchor, updates, except)
    requires updates <= updates' && forall p :: p in updates' ==> p in pages
    ensures Mid(before, base, pages, spans, root, height, next, order, anchor, updates', except)
  {
    hide Shape, SameEntries, Sized, HashOK, Unchanged, Covers;
  }

  lemma InnerAtMid(before: Pages, base: Pages, pages: Pages, spans: Spans, root: int, height: int, next: int,
                   order: int, anchor: LocatorKey, updates: set<int>, x: int)
    requires Mid(before, base, pages, spans, root, height, next, order, anchor, updates, Some(x)) && x in pages
    requires !pages[x].isLeaf
    ensures x in spans && |pages[x].children| == |pages[x].keys| + 1 && spans[x].level > 0 && spans[x].level <= height
    ensures order >= 3
    ensures next !in pages && next !in spans && (forall c :: c in pages[x].children ==> c in pages && c != x)
    ensures Splittable(pages[x], order) && |pages[x].keys| < order ==>
      Mid(before, base, pages, spans, root, height, next, order, anchor, updates, None)
  {
    hide Shape, Track, SameEntries, PageOK, Placed;
    ShapeDomain(pages, spans, root, height);
    LevelBound(pages, spans, root, height, x);
    InnerLevel(pages, spans, root, height, x);
    forall c | c in pages[x].children ensures c in pages && c != x {
      OnlyParent(pages, spans, root, height, x, c);
      NotOwnParent(pages, spans, root, height, x);
    }
  }

  lemma InnerLevel(pages: Pages, spans: Spans, root: int, height: int, x: int)
    requires Shape(pages, spans, root, height) && x in pages && !pages[x].isLeaf
    ensures x in spans && spans[x].level > 0 && |pages[x].children| == |pages[x].keys| + 1
  {
    hide Shape, Placed, LeafOK, KeysSorted, StrictlyIn;
    PageAt(pages, spans, root, height, x);
  }

  lemma LevelBound(pages: Pages, spans: Spans, root: int, height: int, p: int)
    requires Shape(pages, spans, root, height) && p in pages
    ensures p in spans && spans[p].level <= height && (pages[p].parent.None? <==> p == root)
      && (p == root ==> spans[p].level == height)
  {
    hide Shape, PageOK;
    PageAt(pages, spans, root, height, p);
  }

  /** Hashes do not depend on parents. */
  lemma AdoptedHashes(pages: Pages, x: int, mid: nat, right: int)
    requires x in pages && mid < |pages[x].keys| && |pages[x].children| == |pages[x].keys| + 1
    requires x !in pages[x].children && forall c :: c in pages[x].children ==> c in pages
    ensures var adopted, children := Adopted(pages, pages[x].children[mid + 1..], right), pages[x].children;
      && ChildHashes(adopted, children[mid + 1..]) == ChildHashes(pages, children[mid + 1..])
      && ChildHashes(adopted, children[..mid + 1]) == ChildHashes(pages, children[..mid + 1])
      && adopted[x] == pages[x]
      && adopted[x := LeftInner(pages[x], mid,
                                H(InternalPage(pages[x].keys[..mid], ChildHashes(adopted, children[..mid + 1]))))]
                [right := Page(right,
                               H(InternalPage(pages[x].keys[mid + 1..],
                                              ChildHashes(adopted, children[mid + 1..]))), false,
                               pages[x].keys[mid + 1..], [], None, children[mid + 1..], pages[x].parent)]
         == CutInnerOf(pages, x, mid, right)
  {
    var adopted, children := Adopted(pages, pages[x].children[mid + 1..], right), pages[x].children;
    SameChildHashes(adopted, pages, children[mid + 1..]);
    SameChildHashes(adopted, pages, children[..mid + 1]);
  }

  lemma MovedIs(page: Page, mid: nat, updates0: set<int>, updates: set<int>, more: set<int>)
    requires mid + 1 <= |page.children| && forall p :: p in updates <==> p in updates0 || p in page.children[mid + 1..]
    ensures updates + more == updates0 + more + Moved(page, mid)
  {
    var moved, upper := Moved(page, mid), page.children[mid + 1..];
    assert forall p :: p in moved <==> p in upper;
    assert forall p :: p in updates <==> p in updates0 || p in moved;
  }

  lemma NothingCut(pages: Pages, spans: Spans, x: int)
    ensures forall level :: OthersKept(pages, spans, pages, spans, x, level)
  {}

  lemma LeafCutOthers(pages: Pages, spans: Spans, cut: Pages, cutSpans: Spans, x: int, right: int, sep: LocatorKey)
    requires x in pages && x in spans && right !in pages && right !in spans && x in cut && right in cut
    requires cut == pages[x := cut[x]][right := cut[right]] && cutSpans == CutSpans(spans, x, right, sep)
    ensures OthersKept(pages, spans, cut, cutSpans, x, 0)
  {}

  lemma LeafHalvesKept(page: Page, cut: Pages, cutSpans: Spans, pages: Pages, spans: Spans, x: int, right: int,
                       order: int)
    requires page.isLeaf && |page.keys| == |page.values| == order >= 0 && x in cut && right in cut
    requires x in cutSpans && right in cutSpans && cutSpans[x].level == 0 && cutSpans[right].level == 0
    requires cut[x] == LeftLeaf(page, order / 2, right, cut[x].hash)
    requires cut[right] == RightLeaf(page, order / 2, right, cut[right].hash)
    requires KeptTo(cut, cutSpans, pages, spans, 0)
    ensures LeafHalved(page, pages, x, right, order) && x in spans && spans[x] == cutSpans[x]
  {}

  lemma InnerCutOthers(pages: Pages, spans: Spans, x: int, mid: nat, right: int, sep: LocatorKey)
    requires x in pages && x in spans && right !in pages && right !in spans
    requires mid < |pages[x].keys| && |pages[x].children| == |pages[x].keys| + 1
    ensures OthersKept(pages, spans, CutInnerOf(pages, x, mid, right), CutSpans(spans, x, right, sep), x,
                       spans[x].level)
    ensures var cut := CutSpans(spans, x, right, sep); x in cut && cut[x].level == spans[x].level
  {
    hide ChildHashes;
  }

  lemma InnerHalvesKept(page: Page, uncut: Pages, uncutSpans: Spans, pages: Pages, spans: Spans, x: int, right: int,
                        sep: LocatorKey, order: int)
    requires x in uncut && uncut[x] == page && x in uncutSpans && !page.isLeaf && right != x
    requires |page.keys| == order > 0 && |page.children| == order + 1
    requires KeptTo(CutInnerOf(uncut, x, order / 2, right), CutSpans(uncutSpans, x, right, sep), pages, spans,
                    uncutSpans[x].level)
    ensures InnerHalved(page, pages, x, right, order)
  {
    hide ChildHashes;
    var cut := CutInnerOf(uncut, x, order / 2, right);
    assert x in cut && right in cut;
  }

  /** The parent lies above the pair, and only the pair's parents change below it. */
  lemma PairedKept(pages: Pages, spans: Spans, cur: int, right: int, sep: LocatorKey, parent: int, paired: Pages,
                   pairedSpans: Spans, level: int)
    requires Pairable(pages, cur, right) && cur in spans && spans[cur].level == level
    requires parent == ParentID(pages, cur, parent) && paired == Paired(pages, cur, right, sep, parent)
    requires if pages[cur].parent.None?
      then parent !in pages && parent !in spans && pairedSpans == GrownSpans(spans, parent, level)
      else pairedSpans == spans && parent in spans && spans[parent].level == level + 1
    ensures KeptTo(pages, spans, paired, pairedSpans, level)
    ensures parent in pairedSpans && pairedSpans[parent].level == level + 1
  {}

  lemma AdoptOne(pages: Pages, children: seq<int>, right: int, c: int)
    requires c in pages
    ensures var adopted := Adopted(pages, children, right);
      Adopted(pages, children + [c], right) == adopted[c := adopted[c].(parent := Some(right))]
  {}

  lemma PairLevels(before: Pages, base: Pages, pages: Pages, spans: Spans, root: int, height: int, next: int,
                   order: int, anchor: LocatorKey, updates: set<int>, cur: int, right: int, sep: LocatorKey)
    requires PairMid(before, base, pages, spans, root, height, next, order, anchor, updates, cur, right, sep)
    requires cur in spans
    ensures Pairable(pages, cur, right) && order >= 3 && spans[cur].level <= height && next !in pages && next !in spans
    ensures cur in updates && right in updates
    ensures pages[cur].parent.None? ==> spans[cur].level == height
    ensures pages[cur].parent.Some? ==>
      pages[cur].parent.value in spans && spans[pages[cur].parent.value].level == spans[cur].level + 1 <= height
  {
    hide Shape, Track, SameEntries, Sized, Covers, PageOK;
    var after, spans' := Paired(pages, cur, right, sep, next), PairedSpans(pages, spans, cur, height, next);
    var root', height' := BaseRoot(pages, cur, root, next), BaseHeight(pages, cur, height);
    assert cur in after && after[cur].parent == Some(ParentID(pages, cur, next));
    LevelBound(after, spans', root', height', cur);
    var i := ParentOf(after, spans', root', height', cur);
    LevelBound(after, spans', root', height', ParentID(pages, cur, next));
    if pages[cur].parent.None? { assert spans'[next] == Span(height + 1, None, None) && spans'[cur] == spans[cur]; }
  }

  lemma NewRootGiven(before: Pages, base: Pages, pages: Pages, spans: Spans, root: int, height: int, next: int,
                     order: int, anchor: LocatorKey, updates: set<int>, cur: int, right: int, sep: LocatorKey)
    requires PairMid(before, base, pages, spans, root, height, next, order, anchor, updates, cur, right, sep)
    requires pages[cur].parent.None?
    ensures var after := Paired(pages, cur, right, sep, next);
      && Mid(before, base, after, GrownSpans(spans, next, height), next, height + 1, next + 1, order, anchor,
             updates + {cur, right, next}, Some(next))
      && next in after && Splittable(after[next], order)
      && Covers(GrownSpans(spans, next, height)[next], anchor)
  {
    hide Mid, Covers;
    var after := Paired(pages, cur, right, sep, next);
    MoreUpdates(before, base, after, GrownSpans(spans, next, height), next, height + 1, next + 1, order, anchor,
                updates, updates + {cur, right, next}, Some(next));
  }

  lemma OldParentGiven(before: Pages, base: Pages, pages: Pages, spans: Spans, root: int, height: int, next: int,
                       order: int, anchor: LocatorKey, updates: set<int>, cur: int, right: int, sep: LocatorKey)
    requires PairMid(before, base, pages, spans, root, height, next, order, anchor, updates, cur, right, sep)
    requires pages[cur].parent.Some?
    ensures var after, q := Paired(pages, cur, right, sep, next), pages[cur].parent.value;
      && Mid(before, base, after, spans, root, height, next, order, anchor, updates + {q, right}, Some(q))
      && q in after && q in spans && Splittable(after[q], order) && Covers(spans[q], anchor)
  {
    hide Mid, Covers;
    var after, q := Paired(pages, cur, right, sep, next), pages[cur].parent.value;
    MoreUpdates(before, base, after, spans, root, height, next, order, anchor, updates, updates + {q, right}, Some(q));
  }

  /** A new entry makes its leaf's path pending. */
  lemma EntryMid(pages: Pages, spans: Spans, root: int, rootHash: Digest, next: int, height: int, order: int,
                 contents: Contents, cur: int, idx: nat, key: LocatorKey, value: Option<LocatorValue>)
    requires IsTree(pages, spans, root, rootHash, next, height, order) && IsContents(pages, contents)
    requires key !in contents
    requires cur in pages && cur in spans && pages[cur].isLeaf && |pages[cur].values| == |pages[cur].keys|
    requires Covers(spans[cur], key) && IsPlace(pages[cur].keys, key, idx)
    ensures var pages' := pages[cur := WithEntry(pages[cur], idx, key, value)];
      var anchor := pages'[cur].keys[0];
      && Mid(pages, pages', pages', spans, root, height, next, order, anchor, {}, Some(cur))
      && |pages'[cur].keys| <= order && Covers(spans[cur], anchor)
      && (pages'[cur].parent.Some? ==> HalfFull(pages'[cur], order))
      && IsContents(pages', contents[key := value]) && (forall p :: p in pages ==> p in pages')
  {
    hide Shape, Covers, HasEntry, IsPlace, KeyLess, HashOK, Track;
    PlaceInRange(pages[cur].keys, key, idx);
    var pages' := pages[cur := WithEntry(pages[cur], idx, key, value)];
    KeyIsNew(pages, contents, cur, key);
    EntryKeepsShape(pages, spans, root, height, cur, idx, key, value);
    FirstKeyCovered(pages', spans, root, height, cur);
    AddedContents(pages, contents, cur, idx, key, value);
    EntryTracked(pages, spans, root, height, cur, idx, key, value, pages'[cur].keys[0]);
  }

  lemma AddedContents(pages: Pages, contents: Contents, cur: int, idx: nat, key: LocatorKey,
                      value: Option<LocatorValue>)
    requires IsContents(pages, contents) && key !in contents && cur in pages && pages[cur].isLeaf
    requires idx <= |pages[cur].keys| == |pages[cur].values|
    ensures IsContents(pages[cur := WithEntry(pages[cur], idx, key, value)], contents[key := value])
  {
    hide HasEntry, WithEntry;
    var after, pages' := contents[key := value], pages[cur := WithEntry(pages[cur], idx, key, value)];
    EntryAdded(pages, cur, idx, key, value);
    forall k, v ensures HasEntry(pages', k, v) <==> k in after && after[k] == v {
      assert HasEntry(pages, k, v) <==> k in contents && contents[k] == v;
    }
  }

  lemma PlaceInRange(keys: seq<LocatorKey>, key: LocatorKey, idx: nat)
    requires IsPlace(keys, key, idx)
    ensures idx <= |keys|
  {}

  lemma KeyIsNew(pages: Pages, contents: Contents, cur: int, key: LocatorKey)
    requires IsContents(pages, contents) && key !in contents && cur in pages && pages[cur].isLeaf
    requires |pages[cur].values| == |pages[cur].keys|
    ensures key !in pages[cur].keys
  {
    var keys, values := pages[cur].keys, pages[cur].values;
    forall i | 0 <= i < |keys| ensures keys[i] in contents {
      assert EntryAt(pages, cur, i, keys[i], values[i]);
      assert HasEntry(pages, keys[i], values[i]);
    }
  }

  lemma FirstKeyCovered(pages: Pages, spans: Spans, root: int, height: int, cur: int)
    requires Shape(pages, spans, root, height) && cur in pages && pages[cur].isLeaf && pages[cur].keys != []
    ensures cur in spans && Covers(spans[cur], pages[cur].keys[0])
  {
    hide Shape, Covers, Placed, KeysSorted, NextOK, InnerOK;
    PageAt(pages, spans, root, height, cur);
  }

  lemma EntryTracked(pages: Pages, spans: Spans, root: int, height: int, cur: int, idx: nat, key: LocatorKey,
                     value: Option<LocatorValue>, anchor: LocatorKey)
    requires Shape(pages, spans, root, height) && AllHashed(pages) && cur in pages && cur in spans && pages[cur].isLeaf
    requires idx <= |pages[cur].keys| == |pages[cur].values| && Covers(spans[cur], anchor)
    ensures Track(pages, pages[cur := WithEntry(pages[cur], idx, key, value)], spans, anchor, 0, {})
  {
    hide Shape, Covers, HashOK;
    var pages' := pages[cur := WithEntry(pages[cur], idx, key, value)];
    NonNegativeLevel(pages, spans, root, height, cur);
    forall p | p in pages' && p in spans && !Pending(spans, anchor, 0, p)
      ensures HashOK(pages', p) && Unchanged(pages, pages', p) {
      forall c | c in pages[p].children ensures c in pages { OnlyParent(pages, spans, root, height, p, c); }
      SameHash(pages, pages', p);
    }
  }

  lemma NotOverfull(before: Pages, base: Pages, pages: Pages, spans: Spans, root: int, height: int, next: int,
                    order: int, anchor: LocatorKey, updates: set<int>, x: int)
    requires Mid(before, base, pages, spans, root, height, next, order, anchor, updates, Some(x))
    requires x in pages && pages[x].isLeaf && |pages[x].keys| < order
    requires pages[x].parent.Some? ==> HalfFull(pages[x], order)
    ensures Mid(before, base, pages, spans, root, height, next, order, anchor, updates, None)
  {
    hide Shape, Track, SameEntries;
  }

  lemma StartClimb(before: Pages, base: Pages, pages: Pages, spans: Spans, root: int, height: int, next: int,
                   order: int, anchor: LocatorKey, updates: set<int>, p: int)
    requires Mid(before, base, pages, spans, root, height, next, order, anchor, updates, None)
    requires p in pages && p in spans && spans[p].level == 0 && Covers(spans[p], anchor)
    ensures Climbing(before, base, pages, spans, root, height, next, order, anchor, updates, p)
    ensures spans[p].level <= height
  {
    hide Shape, Track, SameEntries, Covers, Sized;
  }

  lemma Climb(before: Pages, base: Pages, pages: Pages, spans: Spans, root: int, height: int, next: int, order: int,
              anchor: LocatorKey, updates: set<int>, p: int)
    requires Climbing(before, base, pages, spans, root, height, next, order, anchor, updates, p)
    ensures var pages' := Rehashed(pages, p);
      && (pages[p].parent.None? ==>
          p == root && Finished(before, base, pages', spans, root, height, next, order, updates + {p}))
      && (pages[p].parent.Some? ==>
            var q := pages[p].parent.value;
            && Climbing(before, base, pages', spans, root, height, next, order, anchor, updates + {p}, q)
            && q in pages' && q in spans && spans[q].level == spans[p].level + 1 <= height)
  {
    hide Shape, Track, Covers, PageHash, SameEntries;
    RehashKeepsShape(pages, spans, root, height, p);
    RehashTracked(before, pages, spans, root, height, p, anchor, updates);
    RehashEntries(base, pages, p);
    LevelBound(pages, spans, root, height, p);
    if pages[p].parent.Some? {
      PathUp(pages, spans, root, height, p, anchor);
      LevelBound(pages, spans, root, height, pages[p].parent.value);
    } else {
      NothingPending(before, Rehashed(pages, p), spans, root, height, anchor, updates + {p});
    }
  }

  lemma RehashEntries(base: Pages, pages: Pages, p: int)
    requires p in pages && SameEntries(base, pages)
    ensures SameEntries(base, Rehashed(pages, p))
  {
    hide PageHash;
    var pages' := Rehashed(pages, p);
    forall k, v | HasEntry(pages, k, v) ensures HasEntry(pages', k, v) {
      var x, i :| EntryAt(pages, x, i, k, v);
      assert EntryAt(pages', x, i, k, v);
    }
    forall k, v | HasEntry(pages', k, v) ensures HasEntry(pages, k, v) {
      var x, i :| EntryAt(pages', x, i, k, v);
      assert EntryAt(pages, x, i, k, v);
    }
  }

  lemma NothingPending(before: Pages, pages: Pages, spans: Spans, root: int, height: int, anchor: LocatorKey,
                       updates: set<int>)
    requires Shape(pages, spans, root, height) && Track(before, pages, spans, anchor, height + 1, updates)
    ensures AllHashed(pages) && forall x :: x in pages && x !in updates ==> Unchanged(before, pages, x)
  {
    hide Shape, HashOK, Unchanged, Covers;
    forall x | x in pages ensures HashOK(pages, x) && (x !in updates ==> Unchanged(before, pages, x)) {
      LevelBound(pages, spans, root, height, x);
    }
  }

  lemma InsertDone(before: Pages, base: Pages, pages: Pages, spans: Spans, root: int, rootHash: Digest, next: int,
                   height: int, order: int, updates: set<int>, contents: Contents)
    requires Finished(before, base, pages, spans, root, height, next, order, updates) && root in pages
    requires rootHash == pages[root].hash
    requires IsContents(base, contents)
    ensures IsTree(pages, spans, root, rootHash, next, height, order) && IsContents(pages, contents)
    ensures (forall p :: p in updates ==> p in pages)
      && forall p :: p in pages && p !in updates ==> Unchanged(before, pages, p)
    ensures forall p :: p in base ==> p in pages
  {
    hide Shape, HasEntry, Unchanged, AllHashed, Sized;
  }

  // ---- The returned pages suffice ----

  lemma UpdatesSuffice(before: Pages, pages: Pages, updates: set<int>)
    requires forall p :: p in before ==> p in pages
    requires forall p :: p in pages ==> pages[p].pageID == p
    requires (forall p :: p in updates ==> p in pages)
      && forall p :: p in pages && p !in updates ==> Unchanged(before, pages, p)
    ensures Suffices(before, pages, PagesOf(pages, updates))
  {
    hide Unchanged;
    forall store | StoreMatches(store, before)
      ensures StoreMatches(Overwrite(store, pages, PagesOf(pages, updates)), pages) {
      StoreKept(store, before, pages, updates);
    }
  }

  /** The pages listed, in the order of their identifiers, are exactly those an insertion changed, unless hashes
      collide. */
  ghost predicate ListsChanges(before: Pages, pages: Pages, list: seq<Page>) {
    && (forall i, j :: 0 <= i < j < |list| ==> list[i].pageID < list[j].pageID)
    && (forall p :: p in pages && (p !in before || before[p] != pages[p]) ==> pages[p] in list)
    && forall page :: page in list ==>
         && page.pageID in pages && page == pages[page.pageID]
         && (page.pageID !in before || before[page.pageID] != page || PagesCollide(before, pages))
  }

  lemma UpdatesChanged(before: Pages, pages: Pages, updates: set<int>)
    requires (forall p :: p in pages ==> pages[p].pageID == p) && OnlyChanged(before, pages, updates)
    requires forall p :: p in pages && p !in updates ==> Unchanged(before, pages, p)
    ensures ListsChanges(before, pages, PagesOf(pages, updates))
  {
    hide PagesCollide, PagesOf;
    ListedPages(pages, updates);
    PagesAscend(pages, updates);
  }

  lemma InsertChanged(before: Pages, spans: Spans, root: int, rootHash: Digest, next: int, height: int, stale: Pages,
                      pages: Pages, spans': Spans, root': int, rootHash': Digest, next': int, height': int, order: int,
                      cur: int, page: Page, right: int, path: seq<int>, touched: set<int>, updates: set<int>)
    requires IsTree(before, spans, root, rootHash, next, height, order) && OnlyHashes(stale, pages)
    requires IsTree(pages, spans', root', rootHash', next', height', order)
    requires cur in before && before[cur].isLeaf && |page.keys| == |before[cur].keys| + 1
    requires |page.keys| == |page.values| <= order && LeafOutcome(page, pages, cur, right, order)
    requires Touching(before, stale, touched) && PathUpwards(pages, cur, path)
    requires forall p :: p in updates ==> p in touched || p in path
    ensures OnlyChanged(before, pages, updates)
  {
    hide Shape, HashOK, Touching, PathUpwards, OnlyChanged, Sized;
    ListedChanged(before, stale, pages, spans, spans', root, root', height, height', cur, path, touched, updates);
  }

  lemma StoreKept(store: PageStore, before: Pages, pages: Pages, updates: set<int>)
    requires forall p :: p in before ==> p in pages
    requires forall p :: p in pages ==> pages[p].pageID == p
    requires (forall p :: p in updates ==> p in pages)
      && forall p :: p in pages && p !in updates ==> Unchanged(before, pages, p)
    requires StoreMatches(store, before)
    ensures StoreMatches(Overwrite(store, pages, PagesOf(pages, updates)), pages)
  {
    hide Unchanged, Stored, Overwrite, PagesOf;
    var list := PagesOf(pages, updates);
    var after := Overwrite(store, pages, list);
    ListedPages(pages, updates);
    Overwritten(store, pages, list);
    forall p | p in pages ensures p in after && after[p] == Stored(pages, pages[p]) {
      if p !in updates { StoredUnchanged(before, pages, p); }
    }
  }

  /** The listed pages are the updated ones. */
  lemma ListedPages(pages: Pages, updates: set<int>)
    requires forall p :: p in pages ==> pages[p].pageID == p
    requires forall p :: p in updates ==> p in pages
    ensures var list := PagesOf(pages, updates);
      (forall i :: 0 <= i < |list| ==> list[i].pageID in updates && list[i] == pages[list[i].pageID])
      && forall p :: p in pages ==> (pages[p] in list <==> p in updates)
  {
    hide PagesOf;
    var list := PagesOf(pages, updates);
    forall p | p in pages && pages[p] in list ensures p in updates {
      var i :| 0 <= i < |list| && list[i] == pages[p];
    }
  }

  lemma StoredUnchanged(before: Pages, pages: Pages, p: int)
    requires p in pages && Unchanged(before, pages, p)
    ensures p in before && Stored(before, before[p]) == Stored(pages, pages[p])
  {
    SameChildHashes(before, pages, pages[p].children);
  }

  lemma {:induction false} Overwritten(store: PageStore, pages: Pages, updates: seq<Page>)
    requires forall i :: 0 <= i < |updates| ==> updates[i].pageID in pages && updates[i] == pages[updates[i].pageID]
    ensures forall page :: page in updates ==>
      page.pageID in Overwrite(store, pages, updates)
      && Overwrite(store, pages, updates)[page.pageID] == Stored(pages, page)
    ensures forall p :: p in Overwrite(store, pages, updates) <==>
      p in store || (p in pages && pages[p].pageID == p && pages[p] in updates)
    ensures forall p :: p in store && !(p in pages && pages[p] in updates) ==>
      Overwrite(store, pages, updates)[p] == store[p]
    decreases |updates|
  {
    hide Stored;
    if updates != [] {
      var rest, last := updates[..|updates| - 1], updates[|updates| - 1];
      assert updates == rest + [last];
      Overwritten(store, pages, rest);
    }
  }
}
