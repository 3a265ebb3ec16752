/** How full the pages of a locator tree are, and how few levels it needs (internal/all/locator_tree.go:117-182). */
module LocatorSizes {
  import opened Hashing
  import opened LocatorKeys
  import opened LocatorPages
  import opened LocatorSplits
  import opened LocatorTrees
  import opened LocatorOrder
  import opened LocatorProofs
  import opened LocatorSoundness

  function Pow(b: nat, e: nat): nat {
    if e == 0 then 1 else b * Pow(b, e - 1)
  }

  /** The least number of children of an internal page below the root. */
  function LeastChildren(order: int): nat
    requires order >= 3
  {
    (order + 1) / 2
  }

  // ---- Pages ----

  /** Below the root a leaf has at least half of the order in keys and an internal page at least half in children; no
      page has more children, or as many keys, as the order. */
  lemma PageSizes(pages: Pages, spans: Spans, root: int, rootHash: Digest, next: int, height: int, order: int, p: int)
    requires IsTree(pages, spans, root, rootHash, next, height, order) && p in pages
    ensures p in spans && |pages[p].keys| < order
    ensures p != root && pages[p].isLeaf ==> |pages[p].keys| >= order / 2
    ensures !pages[p].isLeaf ==> |pages[p].children| <= order && |pages[p].children| >= 2
    ensures !pages[p].isLeaf && p != root ==> |pages[p].children| >= LeastChildren(order)
  {
    hide Shape, AllHashed, SizeOK;
    LevelBound(pages, spans, root, height, p);
    if !pages[p].isLeaf { InnerPage(pages, spans, root, height, p); }
    SizeIs(pages[p], order);
  }

  lemma SizeIs(page: Page, order: int)
    requires SizeOK(page, order) && order >= 3
    ensures |page.keys| < order && (!page.isLeaf ==> |page.keys| >= 1)
    ensures page.parent.Some? ==> |page.keys| >= if page.isLeaf then order / 2 else (order - 1) / 2
  {}

  // ---- Leaves ----

  lemma Times(a: nat, b: nat, c: nat, d: nat)
    requires a >= c && b >= d
    ensures a * b >= c * d
  {
    assert a * b >= c * b >= c * d;
  }

  lemma OneMore(n: nat, x: nat)
    requires n > 0
    ensures n * x == (n - 1) * x + x
  {}

  /** A page of a level has at least and at most so many leaves below it. */
  lemma {:induction false} LeavesBetween(pages: Pages, spans: Spans, root: int, rootHash: Digest, next: int,
                                         height: int, order: int, p: int)
    requires IsTree(pages, spans, root, rootHash, next, height, order) && p in pages && p in spans
    requires spans[p].level >= 0
    ensures var n := |LeavesBelow(pages, spans, root, height, p)|;
      && n <= Pow(order, spans[p].level) && (p != root ==> n >= Pow(LeastChildren(order), spans[p].level))
      && (p == root && spans[p].level > 0 ==> n >= 2 * Pow(LeastChildren(order), spans[p].level - 1))
    decreases spans[p].level, 0, 0
  {
    hide Shape, AllHashed, Sized, LeavesUpTo;
    if pages[p].isLeaf {
      LeafLevel(pages, spans, root, height, p);
    } else {
      InnerPage(pages, spans, root, height, p);
      PageSizes(pages, spans, root, rootHash, next, height, order, p);
      var n, below := |pages[p].children|, Pow(LeastChildren(order), spans[p].level - 1);
      var atMost := Pow(order, spans[p].level - 1);
      ChildLeaves(pages, spans, root, rootHash, next, height, order, p, n);
      Times(order, atMost, n, atMost);
      if p == root { Times(n, below, 2, below); } else { Times(n, below, LeastChildren(order), below); }
    }
  }

  lemma LeafLevel(pages: Pages, spans: Spans, root: int, height: int, p: int)
    requires Shape(pages, spans, root, height) && p in pages && pages[p].isLeaf
    ensures p in spans && spans[p].level == 0
  {
    hide Shape, Placed, KeysSorted, Covers, NextOK;
    PageAt(pages, spans, root, height, p);
  }

  lemma {:induction false} ChildLeaves(pages: Pages, spans: Spans, root: int, rootHash: Digest, next: int, height: int,
                                       order: int, p: int, n: nat)
    requires IsTree(pages, spans, root, rootHash, next, height, order) && p in pages && p in spans
    requires !pages[p].isLeaf && n <= |pages[p].children| && spans[p].level > 0
    ensures var leaves := |LeavesUpTo(pages, spans, root, height, p, n)|;
      n * Pow(LeastChildren(order), spans[p].level - 1) <= leaves <= n * Pow(order, spans[p].level - 1)
    decreases spans[p].level, -1, n
  {
    hide Shape, AllHashed, Sized, LeavesBelow, Pow;
    if n > 0 {
      ChildBelow(pages, spans, root, height, p, n - 1);
      var c := pages[p].children[n - 1];
      LevelBound(pages, spans, root, height, c);
      ChildLeaves(pages, spans, root, rootHash, next, height, order, p, n - 1);
      LeavesBetween(pages, spans, root, rootHash, next, height, order, c);
      OneMore(n, Pow(LeastChildren(order), spans[p].level - 1));
      OneMore(n, Pow(order, spans[p].level - 1));
    }
  }

  // ---- Records ----

  lemma {:induction false} EntriesBetween(pages: Pages, spans: Spans, root: int, rootHash: Digest, next: int,
                                          height: int, order: int, s: seq<int>, n: nat)
    requires IsTree(pages, spans, root, rootHash, next, height, order) && RunIn(pages, s) && n <= |s|
    requires forall i :: 0 <= i < n ==> pages[s[i]].isLeaf
    ensures |RunEntries(pages, s, n)| <= n * (order - 1)
    ensures (forall i :: 0 <= i < n ==> s[i] != root) ==> |RunEntries(pages, s, n)| >= n * (order / 2)
    decreases n
  {
    hide IsTree;
    if n > 0 {
      EntriesBetween(pages, spans, root, rootHash, next, height, order, s, n - 1);
      PageSizes(pages, spans, root, rootHash, next, height, order, s[n - 1]);
      assert order >= 3 by { OrderIs(pages, spans, root, rootHash, next, height, order); }
      OneMore(n, order - 1);
      OneMore(n, order / 2);
    }
  }

  lemma OrderIs(pages: Pages, spans: Spans, root: int, rootHash: Digest, next: int, height: int, order: int)
    requires IsTree(pages, spans, root, rootHash, next, height, order)
    ensures order >= 3 && height >= 0 && Shape(pages, spans, root, height)
  {
    hide Shape, AllHashed, Sized;
  }

  /** Strictly ordered entries that list the contents are as many. */
  lemma {:induction false} EntriesCount(entries: seq<LocatorEntry>, contents: Contents)
    requires EntriesSorted(entries) && forall k, v :: Lists(entries, k, v) <==> k in contents && contents[k] == v
    ensures |entries| == |contents|
    decreases |entries|
  {
    hide KeyLess;
    if entries == [] {
      NoContents(contents);
    } else {
      var rest, last := entries[..|entries| - 1], entries[|entries| - 1];
      assert Lists(entries, last.key, last.value);
      assert last.key in contents;
      LastListed(entries, contents);
      EntriesCount(rest, contents - {last.key});
      assert contents == (contents - {last.key})[last.key := last.value];
    }
  }

  lemma NoContents(contents: Contents)
    requires forall k, v :: Lists([], k, v) <==> k in contents && contents[k] == v
    ensures |contents| == 0
  {
    hide Lists;
    assert forall k :: k in contents ==> Lists([], k, contents[k]);
    forall k, v ensures !Lists([], k, v) { NothingListed(k, v); }
    assert contents == map[];
  }

  lemma LastListed(entries: seq<LocatorEntry>, contents: Contents)
    requires EntriesSorted(entries) && entries != []
    requires forall k, v :: Lists(entries, k, v) <==> k in contents && contents[k] == v
    ensures var rest, last := entries[..|entries| - 1], entries[|entries| - 1];
      && EntriesSorted(rest)
      && forall k, v :: Lists(rest, k, v) <==> k in contents - {last.key} && (contents - {last.key})[k] == v
  {
    hide KeyLess;
    KeyOrder();
    var rest, last := entries[..|entries| - 1], entries[|entries| - 1];
    forall k, v ensures Lists(rest, k, v) <==> k in contents - {last.key} && (contents - {last.key})[k] == v {
      assert Lists(entries, k, v) <==> k in contents && contents[k] == v;
      if Lists(rest, k, v) {
        var i :| 0 <= i < |rest| && rest[i].key == k && rest[i].value == v;
        assert entries[i] == rest[i] && KeyLess(entries[i].key, last.key);
      }
      if Lists(entries, k, v) && k != last.key {
        var i :| 0 <= i < |entries| && entries[i].key == k && entries[i].value == v;
        assert rest[i] == entries[i];
      }
    }
  }

  /** The records of a tree grow at least with the power of half the order, and at most with the power of the order, in
      the height: with n records the height is logarithmic in n. */
  lemma RecordsBetween(pages: Pages, spans: Spans, root: int, rootHash: Digest, next: int, height: int, order: int,
                       contents: Contents)
    requires IsTree(pages, spans, root, rootHash, next, height, order) && IsContents(pages, contents)
    ensures height >= 0 && order >= 3 && |contents| <= Pow(order, height) * (order - 1)
    ensures height > 0 ==> |contents| >= 2 * Pow(LeastChildren(order), height - 1) * (order / 2)
  {
    hide IsTree, IsContents, Shape, Traversal, RunEntries, TreeEntries, EntriesSorted, Pow, Lists, LeavesBelow, IsRun;
    OrderIs(pages, spans, root, rootHash, next, height, order);
    RootSpan(pages, spans, root, height);
    LeavesBetween(pages, spans, root, rootHash, next, height, order, root);
    TreeSorted(pages, spans, root, height);
    TreeListing(pages, spans, root, height, contents);
    EntriesCount(TreeEntries(pages, spans, root, height), contents);
    var s := Traversal(pages, spans, root, height);
    TraversalLeaves(pages, spans, root, height);
    EntriesBetween(pages, spans, root, rootHash, next, height, order, s, |s|);
    Times(Pow(order, height), order - 1, |s|, order - 1);
    if height > 0 { Times(|s|, order / 2, 2 * Pow(LeastChildren(order), height - 1), order / 2); }
  }

  lemma TraversalLeaves(pages: Pages, spans: Spans, root: int, height: int)
    requires Shape(pages, spans, root, height) && height >= 0
    ensures var s := Traversal(pages, spans, root, height);
      && RunIn(pages, s) && (forall i :: 0 <= i < |s| ==> pages[s[i]].isLeaf)
      && (height > 0 ==> forall i :: 0 <= i < |s| ==> s[i] != root)
      && root in spans && spans[root].level == height && s == LeavesBelow(pages, spans, root, height, root)
      && TreeEntries(pages, spans, root, height) == RunEntries(pages, s, |s|)
  {
    hide Shape;
    RootSpan(pages, spans, root, height);
    TraversalRun(pages, spans, root, height);
    TraversalIn(pages, spans, root, height);
    var s := Traversal(pages, spans, root, height);
    forall i | 0 <= i < |s| ensures height > 0 ==> s[i] != root {
      assert spans[s[i]].level == 0;
    }
  }
}
