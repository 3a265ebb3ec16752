/** Where the entries of a locator tree stand: leaf by leaf in the traversal. */
module LocatorPositions {
  import opened Hashing
  import opened LocatorKeys
  import opened LocatorPages
  import opened LocatorTrees
  import opened LocatorOrder
  import opened LocatorProofs
  import opened LocatorSoundness

  /** The state of a locator tree. */
  datatype TreeView = TreeView(pages: Pages, spans: Spans, root: int, rootHash: Digest, next: int, height: int,
                               order: int) {
    ghost predicate Valid() {
      IsTree(pages, spans, root, rootHash, next, height, order)
    }
  }

  ghost function Leaves(t: TreeView): (s: seq<int>)
    requires t.Valid()
    ensures s != [] && RunIn(t.pages, s)
  {
    TraversalIn(t.pages, t.spans, t.root, t.height);
    TraversalRun(t.pages, t.spans, t.root, t.height);
    Traversal(t.pages, t.spans, t.root, t.height)
  }

  ghost function Entries(t: TreeView): seq<LocatorEntry>
    requires t.Valid()
  {
    TreeEntries(t.pages, t.spans, t.root, t.height)
  }

  /** The entries of the n-th leaf start here. */
  ghost function Start(t: TreeView, n: nat): nat
    requires t.Valid() && n <= |Leaves(t)|
  {
    |RunEntries(t.pages, Leaves(t), n)|
  }

  /** The n-th leaf. */
  ghost function LeafAt(t: TreeView, n: nat): Page
    requires t.Valid() && n < |Leaves(t)|
  {
    t.pages[Leaves(t)[n]]
  }

  ghost function SpanAt(t: TreeView, n: nat): (r: Span)
    requires t.Valid() && n < |Leaves(t)|
  {
    LeafFacts(t, n);
    t.spans[Leaves(t)[n]]
  }

  lemma LeafFacts(t: TreeView, n: nat)
    requires t.Valid() && n < |Leaves(t)|
    ensures var p := Leaves(t)[n];
      p in t.pages && p in t.spans && t.pages[p].isLeaf && t.spans[p].level == 0 && t.pages[p].pageID == p
      && |t.pages[p].values| == |t.pages[p].keys| && KeysSorted(t.pages[p].keys)
      && (forall i :: 0 <= i < |t.pages[p].keys| ==> Covers(t.spans[p], t.pages[p].keys[i]))
  {
    hide Shape, Traversal, AllHashed, KeysSorted, Covers, Placed, NextOK, IsRun;
    var s := Leaves(t);
    TraversalRun(t.pages, t.spans, t.root, t.height);
    RunLeaf(t.pages, t.spans, s, None, None, n);
    PageAt(t.pages, t.spans, t.root, t.height, s[n]);
  }

  // ---- Leaves are in key order ----

  lemma {:induction false} LowsIncrease(t: TreeView, i: nat, j: nat)
    requires t.Valid() && i < j < |Leaves(t)|
    ensures SpanAt(t, j).lo.Some? && (SpanAt(t, i).lo.None? || KeyLess(SpanAt(t, i).lo.value, SpanAt(t, j).lo.value))
    decreases j
  {
    hide Shape, Traversal, AllHashed, KeyLess;
    KeyOrder();
    var s := Leaves(t);
    TraversalRun(t.pages, t.spans, t.root, t.height);
    assert t.spans[s[j - 1]].hi.Some?;
    if SpanAt(t, j - 1).lo.Some? { LowCovered(t.pages, t.spans, t.root, t.height, s[j - 1]); }
    if i < j - 1 { LowsIncrease(t, i, j - 1); }
  }

  lemma SameLow(t: TreeView, i: nat, j: nat)
    requires t.Valid() && i < |Leaves(t)| && j < |Leaves(t)| && SpanAt(t, i).lo == SpanAt(t, j).lo
    ensures i == j
  {
    hide TreeView.Valid, SpanAt, Leaves, KeyLess;
    KeyOrder();
    if i < j { LowsIncrease(t, i, j); }
    if j < i { LowsIncrease(t, j, i); }
  }

  /** Each leaf starts where the one before it ends. */
  lemma Adjacent(t: TreeView, i: nat)
    requires t.Valid() && i + 1 < |Leaves(t)|
    ensures SpanAt(t, i).hi.Some? && SpanAt(t, i + 1).lo == SpanAt(t, i).hi
    ensures LeafAt(t, i).next == Some(Leaves(t)[i + 1])
    ensures LeafAt(t, i + 1).keys != [] && SpanAt(t, i + 1).lo == Some(LeafAt(t, i + 1).keys[0])
  {
    hide Shape, Traversal, AllHashed, KeyLess;
    var s := Leaves(t);
    TraversalRun(t.pages, t.spans, t.root, t.height);
    assert t.spans[s[i]].hi.Some?;
    ChainIsRun(t.pages, t.spans, t.root, t.height, s, None, None, i);
    LowCovered(t.pages, t.spans, t.root, t.height, s[i + 1]);
  }

  lemma Ends(t: TreeView)
    requires t.Valid()
    ensures SpanAt(t, 0).lo.None? && SpanAt(t, |Leaves(t)| - 1).hi.None? && LeafAt(t, |Leaves(t)| - 1).next.None?
  {
    hide Shape, Traversal, AllHashed, KeyLess;
    var s := Leaves(t);
    TraversalRun(t.pages, t.spans, t.root, t.height);
    ChainIsRun(t.pages, t.spans, t.root, t.height, s, None, None, |s| - 1);
  }

  /** The position of a leaf among the leaves. */
  lemma IndexOfLeaf(t: TreeView, p: int) returns (n: nat)
    requires t.Valid() && p in t.pages && t.pages[p].isLeaf
    ensures n < |Leaves(t)| && Leaves(t)[n] == p
  {
    hide Shape, Traversal, AllHashed;
    n := LeafTraversed(t.pages, t.spans, t.root, t.height, p);
  }

  /** If there are several leaves, none is empty. */
  lemma NonEmpty(t: TreeView, n: nat)
    requires t.Valid() && n < |Leaves(t)| && |Leaves(t)| > 1
    ensures LeafAt(t, n).keys != []
  {
    hide TreeView.Valid, Leaves, LeafAt;
    if n > 0 { Adjacent(t, n - 1); } else { FirstNonEmpty(t); }
  }

  lemma FirstNonEmpty(t: TreeView)
    requires t.Valid() && |Leaves(t)| > 1
    ensures LeafAt(t, 0).keys != []
  {
    hide Shape, Traversal, AllHashed, PageOK, SpanAt;
    var s := Leaves(t);
    LeafFacts(t, 0);
    PageAt(t.pages, t.spans, t.root, t.height, s[0]);
    if s[0] == t.root {
      Adjacent(t, 0);
      RootSpan(t.pages, t.spans, t.root, t.height);
      SpanIs(t, 0);
    }
  }

  lemma SpanIs(t: TreeView, n: nat)
    requires t.Valid() && n < |Leaves(t)|
    ensures Leaves(t)[n] in t.spans && SpanAt(t, n) == t.spans[Leaves(t)[n]]
  {
    hide TreeView.Valid, Leaves;
    LeafFacts(t, n);
  }

  // ---- Positions of entries ----

  lemma NextStart(t: TreeView, n: nat)
    requires t.Valid() && n < |Leaves(t)|
    ensures Start(t, n + 1) == Start(t, n) + |LeafAt(t, n).keys|
  {
    hide TreeView.Valid, Leaves, PageEntries;
  }

  lemma StartEnds(t: TreeView)
    requires t.Valid()
    ensures Start(t, 0) == 0 && Start(t, |Leaves(t)|) == |Entries(t)|
  {
    hide Traversal, Shape, AllHashed, PageEntries;
  }

  /** The entries of a leaf among all entries. */
  lemma EntriesOfLeaf(t: TreeView, n: nat) returns (rest: seq<LocatorEntry>)
    requires t.Valid() && n < |Leaves(t)|
    ensures Entries(t) == RunEntries(t.pages, Leaves(t), n) + PageEntries(LeafAt(t, n)) + rest
    ensures Start(t, n) + |LeafAt(t, n).keys| <= |Entries(t)|
  {
    hide Traversal, Shape, AllHashed, PageEntries;
    rest := RunPrefix(t.pages, Leaves(t), n + 1, |Leaves(t)|);
  }

  lemma EntryAtPosition(t: TreeView, n: nat, k: nat)
    requires t.Valid() && n < |Leaves(t)| && k < |LeafAt(t, n).keys|
    ensures Start(t, n) + k < |Entries(t)| && Entries(t)[Start(t, n) + k] == PageEntries(LeafAt(t, n))[k]
  {
    hide TreeView.Valid, Leaves, PageEntries, Entries, RunEntries;
    var rest := EntriesOfLeaf(t, n);
  }

  /** The leaf and index of the entry at a position below the start of the n-th leaf. */
  lemma {:induction false} Locate(t: TreeView, x: nat, n: nat) returns (m: nat, k: nat)
    requires t.Valid() && n <= |Leaves(t)| && x < Start(t, n)
    ensures m < n && k < |LeafAt(t, m).keys| && x == Start(t, m) + k
  {
    hide TreeView.Valid, Leaves, LeafAt;
    if x < Start(t, n - 1) {
      m, k := Locate(t, x, n - 1);
    } else {
      NextStart(t, n - 1);
      m, k := n - 1, x - Start(t, n - 1);
    }
  }

  lemma {:induction false} StartsGrow(t: TreeView, n: nat, m: nat)
    requires t.Valid() && n <= m <= |Leaves(t)|
    ensures Start(t, n) <= Start(t, m)
    ensures n < m && |Leaves(t)| > 1 ==> Start(t, n) < Start(t, m)
    decreases m
  {
    hide TreeView.Valid, Leaves, LeafAt, Start;
    if n < m {
      StartsGrow(t, n, m - 1);
      NextStart(t, m - 1);
      if |Leaves(t)| > 1 { NonEmpty(t, m - 1); }
    }
  }

  lemma AllSorted(t: TreeView)
    requires t.Valid()
    ensures EntriesSorted(Entries(t))
  {
    hide Shape, TreeEntries, AllHashed, EntriesSorted;
    TreeSorted(t.pages, t.spans, t.root, t.height);
  }

  /** In the leaf that covers a bound, the split of the leaf's keys is the split of all entries. */
  lemma SplitInLeaf(t: TreeView, n: nat, bound: LocatorKey, i: nat)
    requires t.Valid() && n < |Leaves(t)| && Covers(SpanAt(t, n), bound)
    requires SplitsAt(PageEntries(LeafAt(t, n)), bound, i)
    ensures SplitsAt(Entries(t), bound, Start(t, n) + i)
  {
    hide TreeView.Valid, Leaves, PageEntries, Entries, KeyLess, EntriesSorted, RunEntries, LeafAt, SpanAt, SplitsAt;
    var before, own := RunEntries(t.pages, Leaves(t), n), PageEntries(LeafAt(t, n));
    var rest := EntriesOfLeaf(t, n);
    AllSorted(t);
    BeforeBelow(t, n, bound);
    RestAbove(t, n, bound, rest);
    SplitBetween(before, own, rest, bound, i);
  }

  lemma BeforeBelow(t: TreeView, n: nat, bound: LocatorKey)
    requires t.Valid() && n < |Leaves(t)| && Covers(SpanAt(t, n), bound)
    ensures forall x :: 0 <= x < Start(t, n) ==> KeyLess(RunEntries(t.pages, Leaves(t), n)[x].key, bound)
  {
    hide Shape, AllHashed, Traversal, KeyLess, RunEntries, EntriesSorted, LeafAt;
    KeyOrder();
    if n > 0 {
      Adjacent(t, n - 1);
      TraversalRun(t.pages, t.spans, t.root, t.height);
      RunSorted(t.pages, t.spans, t.root, t.height, Leaves(t), n);
    } else {
      NoEntriesBefore(t);
    }
  }

  lemma NoEntriesBefore(t: TreeView)
    requires t.Valid()
    ensures Start(t, 0) == 0
  {
    hide TreeView.Valid, Leaves;
  }

  lemma RestAbove(t: TreeView, n: nat, bound: LocatorKey, rest: seq<LocatorEntry>)
    requires t.Valid() && n < |Leaves(t)| && Covers(SpanAt(t, n), bound)
    requires Entries(t) == RunEntries(t.pages, Leaves(t), n) + PageEntries(LeafAt(t, n)) + rest
    ensures rest != [] ==> KeyLess(bound, rest[0].key)
  {
    hide TreeView.Valid, Leaves, KeyLess, RunEntries, Entries, EntriesSorted, LeafAt, SpanAt;
    NextStart(t, n);
    StartEnds(t);
    if rest != [] {
      assert n + 1 < |Leaves(t)| by { assert Start(t, n + 1) < |Entries(t)|; }
      Adjacent(t, n);
      EntryAtPosition(t, n + 1, 0);
    }
  }

  lemma SplitBetween(before: seq<LocatorEntry>, own: seq<LocatorEntry>, rest: seq<LocatorEntry>, bound: LocatorKey,
                     i: nat)
    requires EntriesSorted(before + own + rest) && SplitsAt(own, bound, i)
    requires forall x :: 0 <= x < |before| ==> KeyLess(before[x].key, bound)
    requires rest != [] ==> KeyLess(bound, rest[0].key)
    ensures SplitsAt(before + own + rest, bound, |before| + i)
  {
    hide KeyLess;
    KeyOrder();
    var all, b, c := before + own + rest, |before|, |before| + |own|;
    forall n | 0 <= n < b + i ensures KeyLess(all[n].key, bound) {
      if n >= b { assert all[n] == own[n - b]; }
    }
    forall n | b + i <= n < |all| ensures KeyAtMost(bound, all[n].key) {
      if n < c { assert all[n] == own[n - b]; }
      else {
        assert all[c] == rest[0];
        assert c < n ==> KeyLess(all[c].key, all[n].key);
      }
    }
  }
}
