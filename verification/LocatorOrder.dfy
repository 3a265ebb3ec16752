/** The leaves of a locator tree from left to right: the leaf chain, and the order of all entries. */
module LocatorOrder {
  import opened Hashing
  import opened LocatorKeys
  import opened LocatorPages

  datatype LocatorEntry = LocatorEntry(pageID: int, key: LocatorKey, value: Option<LocatorValue>)

  // ---- The traversal ----

  /** The leaves below a page, from left to right. */
  ghost function LeavesBelow(pages: Pages, spans: Spans, root: int, height: int, p: int): seq<int>
    requires Shape(pages, spans, root, height) && p in pages && p in spans && spans[p].level >= 0
    decreases spans[p].level, 0, 0
  {
    if pages[p].isLeaf then [p]
    else
      InnerPage(pages, spans, root, height, p);
      LeavesUpTo(pages, spans, root, height, p, |pages[p].children|)
  }

  /** The leaves below the first n children of a page. */
  ghost function LeavesUpTo(pages: Pages, spans: Spans, root: int, height: int, p: int, n: nat): seq<int>
    requires Shape(pages, spans, root, height) && p in pages && p in spans && !pages[p].isLeaf
    requires n <= |pages[p].children|
    requires spans[p].level > 0
    decreases spans[p].level, -1, n
  {
    if n == 0 then []
    else
      ChildBelow(pages, spans, root, height, p, n - 1);
      LeavesUpTo(pages, spans, root, height, p, n - 1)
        + LeavesBelow(pages, spans, root, height, pages[p].children[n - 1])
  }

  lemma InnerPage(pages: Pages, spans: Spans, root: int, height: int, p: int)
    requires Shape(pages, spans, root, height) && p in pages && !pages[p].isLeaf
    ensures p in spans && spans[p].level > 0 && |pages[p].children| == |pages[p].keys| + 1
  {
    hide Shape, Placed, KeysSorted, StrictlyIn;
    PageAt(pages, spans, root, height, p);
  }

  lemma ChildBelow(pages: Pages, spans: Spans, root: int, height: int, p: int, i: nat)
    requires Shape(pages, spans, root, height) && p in pages && !pages[p].isLeaf && i < |pages[p].children|
    ensures p in spans && |pages[p].children| == |pages[p].keys| + 1
    ensures var c := pages[p].children[i];
      c in pages && c in spans && 0 <= spans[c].level < spans[p].level && pages[c].parent == Some(p)
      && spans[c] == Span(spans[p].level - 1, LowOf(spans[p], pages[p].keys, i), HighOf(spans[p], pages[p].keys, i))
  {
    hide Shape, Placed, KeysSorted, StrictlyIn;
    PageAt(pages, spans, root, height, p);
    assert ChildOK(pages, spans, p, i);
  }

  /** A run of leaves covers the interval from lo to hi without gaps. */
  ghost predicate IsRun(pages: Pages, spans: Spans, s: seq<int>, lo: Option<LocatorKey>, hi: Option<LocatorKey>) {
    && s != [] && (forall i :: 0 <= i < |s| ==>
                   s[i] in pages && s[i] in spans && pages[s[i]].isLeaf && spans[s[i]].level == 0)
    && spans[s[0]].lo == lo && spans[s[|s| - 1]].hi == hi
    && forall i {:trigger spans[s[i]]} :: 0 <= i < |s| - 1 ==>
      spans[s[i]].hi.Some? && spans[s[i + 1]].lo == spans[s[i]].hi
  }

  lemma RunConcat(pages: Pages, spans: Spans, a: seq<int>, b: seq<int>, lo: Option<LocatorKey>,
                  mid: Option<LocatorKey>, hi: Option<LocatorKey>)
    requires IsRun(pages, spans, a, lo, mid) && IsRun(pages, spans, b, mid, hi) && mid.Some?
    ensures IsRun(pages, spans, a + b, lo, hi)
  {
    var s := a + b;
    forall i | 0 <= i < |s| - 1 ensures spans[s[i]].hi.Some? && spans[s[i + 1]].lo == spans[s[i]].hi {
      if i < |a| - 1 { assert spans[a[i]].hi.Some?; }
      else if i >= |a| { assert spans[b[i - |a|]].hi.Some?; }
    }
  }

  lemma {:induction false} LeavesRun(pages: Pages, spans: Spans, root: int, height: int, p: int)
    requires Shape(pages, spans, root, height) && p in pages && p in spans && spans[p].level >= 0
    ensures IsRun(pages, spans, LeavesBelow(pages, spans, root, height, p), spans[p].lo, spans[p].hi)
    decreases spans[p].level, 0, 0
  {
    hide Shape, IsRun;
    if pages[p].isLeaf {
      LeafRun(pages, spans, root, height, p);
    } else {
      InnerPage(pages, spans, root, height, p);
      LeavesUpToRun(pages, spans, root, height, p, |pages[p].children|);
    }
  }

  lemma LeafRun(pages: Pages, spans: Spans, root: int, height: int, p: int)
    requires Shape(pages, spans, root, height) && p in pages && pages[p].isLeaf
    ensures p in spans && IsRun(pages, spans, [p], spans[p].lo, spans[p].hi)
  {
    hide Shape, Placed, KeysSorted, Covers, NextOK;
    PageAt(pages, spans, root, height, p);
  }

  lemma {:induction false} LeavesUpToRun(pages: Pages, spans: Spans, root: int, height: int, p: int, n: nat)
    requires Shape(pages, spans, root, height) && p in pages && p in spans && !pages[p].isLeaf
    requires 0 < n <= |pages[p].children|
    requires spans[p].level > 0 && |pages[p].children| == |pages[p].keys| + 1
    ensures IsRun(pages, spans, LeavesUpTo(pages, spans, root, height, p, n), spans[p].lo,
                  HighOf(spans[p], pages[p].keys, n - 1))
    decreases spans[p].level, -1, n
  {
    hide Shape, IsRun, LeavesBelow;
    ChildBelow(pages, spans, root, height, p, n - 1);
    var c := pages[p].children[n - 1];
    LeavesRun(pages, spans, root, height, c);
    if n == 1 {
      assert LeavesUpTo(pages, spans, root, height, p, 0) == [];
      assert [] + LeavesBelow(pages, spans, root, height, c) == LeavesBelow(pages, spans, root, height, c);
    } else {
      LeavesUpToRun(pages, spans, root, height, p, n - 1);
      RunConcat(pages, spans, LeavesUpTo(pages, spans, root, height, p, n - 1),
                LeavesBelow(pages, spans, root, height, c),
                spans[p].lo, HighOf(spans[p], pages[p].keys, n - 2), HighOf(spans[p], pages[p].keys, n - 1));
    }
  }

  /** All leaves, in order. */
  ghost function Traversal(pages: Pages, spans: Spans, root: int, height: int): seq<int>
    requires Shape(pages, spans, root, height) && height >= 0
  {
    RootSpan(pages, spans, root, height);
    LeavesBelow(pages, spans, root, height, root)
  }

  lemma RootSpan(pages: Pages, spans: Spans, root: int, height: int)
    requires Shape(pages, spans, root, height)
    ensures root in pages && root in spans && spans[root] == Span(height, None, None)
  {
    hide PageOK;
    PageAt(pages, spans, root, height, root);
  }

  lemma TraversalRun(pages: Pages, spans: Spans, root: int, height: int)
    requires Shape(pages, spans, root, height) && height >= 0
    ensures IsRun(pages, spans, Traversal(pages, spans, root, height), None, None)
  {
    hide Shape, IsRun, LeavesBelow;
    RootSpan(pages, spans, root, height);
    LeavesRun(pages, spans, root, height, root);
  }

  // ---- The leaf chain is the traversal ----

  /** The leaf that starts at a bound holds the bound. */
  lemma LowCovered(pages: Pages, spans: Spans, root: int, height: int, p: int)
    requires Shape(pages, spans, root, height) && p in pages && pages[p].isLeaf && p in spans && spans[p].lo.Some?
    ensures Covers(spans[p], spans[p].lo.value) && pages[p].keys != [] && pages[p].keys[0] == spans[p].lo.value
  {
    hide Shape, Placed, KeysSorted, Covers, NextOK;
    PageAt(pages, spans, root, height, p);
  }

  /** Following the next links visits the leaves in traversal order and ends with the last one. */
  lemma ChainIsRun(pages: Pages, spans: Spans, root: int, height: int, s: seq<int>, lo: Option<LocatorKey>,
                   hi: Option<LocatorKey>, i: nat)
    requires Shape(pages, spans, root, height) && IsRun(pages, spans, s, lo, hi) && i < |s|
    ensures i < |s| - 1 ==> pages[s[i]].next == Some(s[i + 1])
    ensures i == |s| - 1 ==> (pages[s[i]].next.None? <==> hi.None?)
  {
    hide Shape, Placed, KeysSorted, Covers;
    PageAt(pages, spans, root, height, s[i]);
    if i < |s| - 1 {
      var n := pages[s[i]].next.value;
      assert spans[s[i]].hi.Some?;
      PageAt(pages, spans, root, height, n);
      PageAt(pages, spans, root, height, s[i + 1]);
      LowCovered(pages, spans, root, height, n);
      LowCovered(pages, spans, root, height, s[i + 1]);
      OnePage(pages, spans, root, height, n, s[i + 1], spans[s[i]].hi.value);
    }
  }

  /** The leaf of a run that covers a key of its interval. */
  lemma {:induction false} RunCovers(pages: Pages, spans: Spans, s: seq<int>, lo: Option<LocatorKey>,
                                     hi: Option<LocatorKey>, k: LocatorKey)
    returns (i: nat)
    requires IsRun(pages, spans, s, lo, hi) && AboveLow(k, lo) && BelowHigh(k, hi)
    ensures i < |s| && s[i] in spans && Covers(spans[s[i]], k)
    decreases |s|
  {
    hide KeyLess;
    if |s| == 1 || BelowHigh(k, spans[s[0]].hi) {
      i := 0;
    } else {
      assert spans[s[0]].hi.Some?;
      var rest := s[1..];
      forall j | 0 <= j < |rest| - 1 ensures spans[rest[j]].hi.Some? && spans[rest[j + 1]].lo == spans[rest[j]].hi {
        assert spans[s[j + 1]].hi.Some?;
      }
      var j := RunCovers(pages, spans, rest, spans[s[0]].hi, hi, k);
      i := j + 1;
    }
  }

  /** Every leaf of the tree is in the traversal. */
  lemma LeafTraversed(pages: Pages, spans: Spans, root: int, height: int, p: int) returns (i: nat)
    requires Shape(pages, spans, root, height) && height >= 0 && p in pages && pages[p].isLeaf
    ensures i < |Traversal(pages, spans, root, height)| && Traversal(pages, spans, root, height)[i] == p
  {
    hide Shape, IsRun, KeysSorted, Covers, NextOK, InnerOK;
    var s := Traversal(pages, spans, root, height);
    TraversalRun(pages, spans, root, height);
    PageAt(pages, spans, root, height, p);
    if pages[p].keys == [] {
      assert p == root && s == [p];
      i := 0;
    } else {
      i := RunCovers(pages, spans, s, None, None, pages[p].keys[0]);
      RunLeaf(pages, spans, s, None, None, i);
      OnePage(pages, spans, root, height, p, s[i], pages[p].keys[0]);
    }
  }

  lemma RunLeaf(pages: Pages, spans: Spans, s: seq<int>, lo: Option<LocatorKey>, hi: Option<LocatorKey>, i: nat)
    requires IsRun(pages, spans, s, lo, hi) && i < |s|
    ensures s[i] in pages && s[i] in spans && pages[s[i]].isLeaf && spans[s[i]].level == 0
  {}

  /** A separator is the least key to its right: the first key of the first leaf below. */
  lemma SeparatorIsLeast(pages: Pages, spans: Spans, root: int, height: int, p: int, i: nat)
    requires Shape(pages, spans, root, height) && p in pages && !pages[p].isLeaf && i < |pages[p].keys|
    ensures i + 1 < |pages[p].children| && pages[p].children[i + 1] in pages && pages[p].children[i + 1] in spans
    ensures spans[pages[p].children[i + 1]].level >= 0
    ensures var leaves := LeavesBelow(pages, spans, root, height, pages[p].children[i + 1]);
      leaves != [] && leaves[0] in pages && pages[leaves[0]].keys != [] && pages[leaves[0]].keys[0] == pages[p].keys[i]
  {
    hide Shape, LeavesBelow;
    InnerPage(pages, spans, root, height, p);
    ChildBelow(pages, spans, root, height, p, i + 1);
    var c := pages[p].children[i + 1];
    LeavesRun(pages, spans, root, height, c);
    var leaves := LeavesBelow(pages, spans, root, height, c);
    LowCovered(pages, spans, root, height, leaves[0]);
  }
}
