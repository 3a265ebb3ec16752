/** A range proof accepted against the root of a locator tree answers the query exactly. */
module LocatorSoundness {
  import opened Hashing
  import opened LocatorKeys
  import opened LocatorPages
  import opened LocatorTracking
  import opened LocatorTrees
  import opened LocatorOrder
  import opened LocatorProofs

  // ---- All entries of a tree, in order ----

  function PageEntries(page: Page): (r: seq<LocatorEntry>)
    ensures |r| == |page.keys|
  {
    EntriesOf(page.pageID, page.keys, page.values)
  }

  /** The entries of the first n leaves of a run. */
  ghost function RunEntries(pages: Pages, s: seq<int>, n: nat): seq<LocatorEntry>
    requires n <= |s| && forall i :: 0 <= i < n ==> s[i] in pages
  {
    if n == 0 then [] else RunEntries(pages, s, n - 1) + PageEntries(pages[s[n - 1]])
  }

  ghost predicate RunIn(pages: Pages, s: seq<int>) {
    forall i :: 0 <= i < |s| ==> s[i] in pages
  }

  lemma TraversalIn(pages: Pages, spans: Spans, root: int, height: int)
    requires Shape(pages, spans, root, height) && height >= 0
    ensures RunIn(pages, Traversal(pages, spans, root, height))
  {
    hide Shape, Traversal;
    TraversalRun(pages, spans, root, height);
  }

  /** Every entry of the tree, in the order of the leaves. */
  ghost function TreeEntries(pages: Pages, spans: Spans, root: int, height: int): seq<LocatorEntry>
    requires Shape(pages, spans, root, height) && height >= 0
  {
    TraversalIn(pages, spans, root, height);
    var s := Traversal(pages, spans, root, height);
    RunEntries(pages, s, |s|)
  }

  ghost predicate KeysBelow(entries: seq<LocatorEntry>, hi: Option<LocatorKey>) {
    forall i :: 0 <= i < |entries| ==> BelowHigh(entries[i].key, hi)
  }

  /** The keys of a run are strictly ordered. */
  lemma {:induction false} RunSorted(pages: Pages, spans: Spans, root: int, height: int, s: seq<int>, n: nat)
    requires Shape(pages, spans, root, height) && IsRun(pages, spans, s, None, None) && n <= |s|
    ensures EntriesSorted(RunEntries(pages, s, n))
    ensures n > 0 ==> KeysBelow(RunEntries(pages, s, n), spans[s[n - 1]].hi)
  {
    hide Shape, PageEntries, KeysBelow, EntriesSorted, KeyLess;
    if n == 0 {
      NoneSorted();
    } else {
      RunSorted(pages, spans, root, height, s, n - 1);
      RunLeaf(pages, spans, s, None, None, n - 1);
      LeafSorted(pages, spans, root, height, s[n - 1]);
      if n > 1 {
        assert spans[s[n - 2]].hi.Some?;
        LowCovered(pages, spans, root, height, s[n - 1]);
        SortedConcat(RunEntries(pages, s, n - 1), PageEntries(pages[s[n - 1]]), spans[s[n - 1]]);
      } else {
        assert [] + PageEntries(pages[s[0]]) == PageEntries(pages[s[0]]);
      }
    }
  }

  lemma NoneSorted()
    ensures EntriesSorted([])
  {}

  lemma LeafSorted(pages: Pages, spans: Spans, root: int, height: int, p: int)
    requires Shape(pages, spans, root, height) && p in pages && pages[p].isLeaf && p in spans
    ensures EntriesSorted(PageEntries(pages[p])) && KeysBelow(PageEntries(pages[p]), spans[p].hi)
    ensures forall i :: 0 <= i < |pages[p].keys| ==> AboveLow(PageEntries(pages[p])[i].key, spans[p].lo)
  {
    hide Shape, Placed, NextOK, KeyLess;
    PageAt(pages, spans, root, height, p);
  }

  lemma SortedConcat(a: seq<LocatorEntry>, b: seq<LocatorEntry>, span: Span)
    requires EntriesSorted(a) && EntriesSorted(b) && span.lo.Some? && KeysBelow(a, span.lo) && KeysBelow(b, span.hi)
    requires forall i :: 0 <= i < |b| ==> AboveLow(b[i].key, span.lo)
    requires span.hi.Some? ==> KeyLess(span.lo.value, span.hi.value)
    ensures EntriesSorted(a + b) && KeysBelow(a + b, span.hi)
  {
    hide KeyLess;
    KeyOrder();
  }

  // ---- The entries are the tree's contents ----

  ghost predicate Lists(entries: seq<LocatorEntry>, k: LocatorKey, v: Option<LocatorValue>) {
    exists i :: 0 <= i < |entries| && entries[i].key == k && entries[i].value == v
  }

  lemma ListsConcat(a: seq<LocatorEntry>, b: seq<LocatorEntry>, k: LocatorKey, v: Option<LocatorValue>)
    ensures Lists(a + b, k, v) <==> Lists(a, k, v) || Lists(b, k, v)
  {
    var all := a + b;
    if Lists(a, k, v) {
      var i :| 0 <= i < |a| && a[i].key == k && a[i].value == v;
      assert all[i] == a[i];
    }
    if Lists(b, k, v) {
      var i :| 0 <= i < |b| && b[i].key == k && b[i].value == v;
      assert all[|a| + i] == b[i];
    }
  }

  lemma {:induction false} RunLists(pages: Pages, s: seq<int>, n: nat, k: LocatorKey, v: Option<LocatorValue>)
    requires n <= |s| && forall i :: 0 <= i < n ==> s[i] in pages
    ensures Lists(RunEntries(pages, s, n), k, v) <==> exists i :: 0 <= i < n && Lists(PageEntries(pages[s[i]]), k, v)
  {
    hide Lists, PageEntries;
    if n == 0 {
      assert !Lists([], k, v) by { NothingListed(k, v); }
    } else {
      RunLists(pages, s, n - 1, k, v);
      ListsConcat(RunEntries(pages, s, n - 1), PageEntries(pages[s[n - 1]]), k, v);
    }
  }

  lemma NothingListed(k: LocatorKey, v: Option<LocatorValue>)
    ensures !Lists([], k, v)
  {}

  lemma PageLists(pages: Pages, p: int, k: LocatorKey, v: Option<LocatorValue>)
    requires p in pages && pages[p].isLeaf && |pages[p].values| == |pages[p].keys|
    ensures Lists(PageEntries(pages[p]), k, v) <==> exists i :: EntryAt(pages, p, i, k, v)
  {
    var entries := PageEntries(pages[p]);
    if Lists(entries, k, v) {
      var i :| 0 <= i < |entries| && entries[i].key == k && entries[i].value == v;
      assert EntryAt(pages, p, i, k, v);
    }
    forall i | EntryAt(pages, p, i, k, v) ensures Lists(entries, k, v) {
      assert entries[i].key == k;
    }
  }

  /** The leaves list exactly the inserted records. */
  lemma TreeListsContents(pages: Pages, spans: Spans, root: int, height: int, contents: Contents, k: LocatorKey,
                          v: Option<LocatorValue>)
    requires Shape(pages, spans, root, height) && height >= 0 && IsContents(pages, contents)
    ensures Lists(TreeEntries(pages, spans, root, height), k, v) <==> k in contents && contents[k] == v
  {
    hide Shape, Lists, PageEntries, EntryAt, Traversal, IsRun;
    var s := Traversal(pages, spans, root, height);
    TraversalRun(pages, spans, root, height);
    TraversalIn(pages, spans, root, height);
    RunLists(pages, s, |s|, k, v);
    assert HasEntry(pages, k, v) <==> k in contents && contents[k] == v;
    if HasEntry(pages, k, v) {
      var p, i :| EntryAt(pages, p, i, k, v);
      EntryLeaf(pages, spans, root, height, p, i, k, v);
      PageLists(pages, p, k, v);
      var n := LeafTraversed(pages, spans, root, height, p);
      assert Lists(PageEntries(pages[s[n]]), k, v);
    }
    forall n | 0 <= n < |s| && Lists(PageEntries(pages[s[n]]), k, v) ensures HasEntry(pages, k, v) {
      RunLeaf(pages, spans, s, None, None, n);
      LeafValues(pages, spans, root, height, s[n]);
      PageLists(pages, s[n], k, v);
    }
  }

  lemma EntryLeaf(pages: Pages, spans: Spans, root: int, height: int, p: int, i: int, k: LocatorKey,
                  v: Option<LocatorValue>)
    requires Shape(pages, spans, root, height) && EntryAt(pages, p, i, k, v)
    ensures p in pages && pages[p].isLeaf && |pages[p].values| == |pages[p].keys|
  {
    hide Shape;
    LeafValues(pages, spans, root, height, p);
  }

  lemma LeafValues(pages: Pages, spans: Spans, root: int, height: int, p: int)
    requires Shape(pages, spans, root, height) && p in pages && pages[p].isLeaf
    ensures |pages[p].values| == |pages[p].keys| && pages[p].pageID == p
  {
    hide Shape, Placed, KeysSorted, Covers, NextOK;
    PageAt(pages, spans, root, height, p);
  }

  // ---- Each leaf proof shows a leaf of the tree ----

  function ProofContents(leaves: seq<LocatorLeafProof>): set<Preimage> {
    set i, p | 0 <= i < |leaves| && p in ClimbContents(leaves[i]) :: p
  }

  function TreePreimages(pages: Pages): set<Preimage> {
    set p | p in pages :: PageContents(pages, pages[p])
  }

  /** The leaf proof copies a leaf page. */
  ghost predicate ShowsLeaf(pages: Pages, leaf: LocatorLeafProof) {
    leaf.pageID in pages && PageContents(pages, pages[leaf.pageID]) == LeafContents(leaf)
  }

  lemma NoCollision(leaf: LocatorLeafProof, pages: Pages, run: Preimage, p: int)
    requires !Collide(ClimbContents(leaf), TreePreimages(pages)) && run in ClimbContents(leaf) && p in pages
    requires H(run) == PageHash(pages, pages[p])
    ensures run == PageContents(pages, pages[p])
  {
    hide ClimbContents, PageContents;
    assert PageContents(pages, pages[p]) in TreePreimages(pages);
  }

  /** From a page whose hash the path reaches after n steps down to the leaf. */
  lemma {:induction false} Descend(pages: Pages, spans: Spans, root: int, height: int, leaf: LocatorLeafProof, n: nat,
                                   q: int)
    requires Shape(pages, spans, root, height) && AllHashed(pages) && n <= |leaf.path|
    requires q in pages && q in spans && Climbed(leaf, n) == Ok(pages[q].hash)
    requires !Collide(ClimbContents(leaf), TreePreimages(pages))
    ensures ShowsLeaf(pages, leaf) && leaf.pageID in spans
    ensures IsLeftmost(leaf) && spans[q].lo.None? ==> spans[leaf.pageID].lo.None?
  {
    hide Shape, Collide, TreePreimages, ClimbContents;
    if n == 0 {
      AtLeaf(pages, spans, root, height, leaf, q);
    } else {
      AtStep(pages, spans, root, height, leaf, n, q);
      Descend(pages, spans, root, height, leaf, n - 1, pages[q].children[leaf.path[n - 1].childIndex]);
    }
  }

  lemma AtLeaf(pages: Pages, spans: Spans, root: int, height: int, leaf: LocatorLeafProof, q: int)
    requires Shape(pages, spans, root, height) && AllHashed(pages)
    requires q in pages && Climbed(leaf, 0) == Ok(pages[q].hash) && !Collide(ClimbContents(leaf), TreePreimages(pages))
    ensures q == leaf.pageID && ShowsLeaf(pages, leaf)
  {
    hide Shape, Collide, TreePreimages;
    NoCollision(leaf, pages, LeafContents(leaf), q);
    LeafValues(pages, spans, root, height, q);
  }

  lemma AtStep(pages: Pages, spans: Spans, root: int, height: int, leaf: LocatorLeafProof, n: nat, q: int)
    requires Shape(pages, spans, root, height) && AllHashed(pages) && 0 < n <= |leaf.path|
    requires q in pages && q in spans && Climbed(leaf, n) == Ok(pages[q].hash)
    requires !Collide(ClimbContents(leaf), TreePreimages(pages))
    ensures var i := leaf.path[n - 1].childIndex;
      && 0 <= i < |pages[q].children| && pages[q].children[i] in pages && pages[q].children[i] in spans
      && Climbed(leaf, n - 1) == Ok(pages[pages[q].children[i]].hash)
      && (i == 0 ==> spans[pages[q].children[i]].lo == spans[q].lo)
  {
    hide Shape, Collide, TreePreimages;
    var step, below := leaf.path[n - 1], Climbed(leaf, n - 1);
    var contents, i := StepContents(step, below.value), step.childIndex;
    assert contents in ClimbContents(leaf);
    NoCollision(leaf, pages, contents, q);
    InnerPage(pages, spans, root, height, q);
    ChildBelow(pages, spans, root, height, q, i);
    assert step.childHashes[i := below.value][i] == below.value;
  }

  lemma LeafShown(pages: Pages, spans: Spans, root: int, height: int, leaves: seq<LocatorLeafProof>, i: nat)
    requires Shape(pages, spans, root, height) && AllHashed(pages) && root in pages
    requires ReachesRoot(leaves, pages[root].hash)
    requires i < |leaves| && !Collide(ProofContents(leaves), TreePreimages(pages))
    ensures ShowsLeaf(pages, leaves[i]) && leaves[i].pageID in spans
    ensures IsLeftmost(leaves[i]) ==> spans[leaves[i].pageID].lo.None?
  {
    hide Shape, TreePreimages, ClimbContents, ShowsLeaf, IsLeftmost, AllHashed;
    RootSpan(pages, spans, root, height);
    assert forall p :: p in ClimbContents(leaves[i]) ==> p in ProofContents(leaves);
    Descend(pages, spans, root, height, leaves[i], |leaves[i].path|, root);
  }

  // ---- The proof's leaves are a stretch of the leaf chain ----

  /** The first n leaf proofs show the leaves from position a. */
  ghost predicate ShowsRun(pages: Pages, s: seq<int>, leaves: seq<LocatorLeafProof>, a: nat, n: nat)
    requires n <= |leaves|
  {
    a + n <= |s| && forall i :: 0 <= i < n ==> s[a + i] == leaves[i].pageID && ShowsLeaf(pages, leaves[i])
  }

  ghost predicate AllShown(pages: Pages, leaves: seq<LocatorLeafProof>) {
    forall i :: 0 <= i < |leaves| ==> ShowsLeaf(pages, leaves[i])
  }

  lemma {:induction false} RunShown(pages: Pages, spans: Spans, root: int, height: int, leaves: seq<LocatorLeafProof>,
                                    a: nat, n: nat)
    requires Shape(pages, spans, root, height) && height >= 0 && Consecutive(leaves) && AllShown(pages, leaves)
    requires 0 < n <= |leaves|
    requires var s := Traversal(pages, spans, root, height); a < |s| && s[a] == leaves[0].pageID
    ensures ShowsRun(pages, Traversal(pages, spans, root, height), leaves, a, n)
  {
    hide Shape, Traversal, FlatEntries, EntriesSorted, ShowsLeaf, IsRun;
    var s := Traversal(pages, spans, root, height);
    if n == 1 {
      assert ShowsLeaf(pages, leaves[0]);
    } else {
      RunShown(pages, spans, root, height, leaves, a, n - 1);
      assert ShowsLeaf(pages, leaves[n - 2]) && ShowsLeaf(pages, leaves[n - 1]);
      assert s[a + (n - 2)] == leaves[n - 2].pageID;
      TraversalRun(pages, spans, root, height);
      ChainIsRun(pages, spans, root, height, s, None, None, a + n - 2);
      ShownNext(pages, leaves[n - 2]);
      assert LinkOK(leaves, n - 2);
    }
  }

  lemma ShownNext(pages: Pages, leaf: LocatorLeafProof)
    requires ShowsLeaf(pages, leaf)
    ensures leaf.pageID in pages && pages[leaf.pageID].isLeaf && pages[leaf.pageID].next == leaf.nextPageID
    ensures pages[leaf.pageID].keys == leaf.keys && pages[leaf.pageID].values == leaf.values
    ensures pages[leaf.pageID].pageID == leaf.pageID
  {}

  lemma {:induction false} RunEntriesShown(pages: Pages, s: seq<int>, leaves: seq<LocatorLeafProof>, a: nat, n: nat)
    requires n <= |leaves| && RunIn(pages, s) && ShowsRun(pages, s, leaves, a, n)
    ensures RunEntries(pages, s, a + n) == RunEntries(pages, s, a) + FlatEntries(leaves, n)
  {
    hide ShowsLeaf;
    if n > 0 {
      RunEntriesShown(pages, s, leaves, a, n - 1);
      assert s[a + (n - 1)] == leaves[n - 1].pageID;
      ShownNext(pages, leaves[n - 1]);
      assert PageEntries(pages[s[a + n - 1]]) == LeafEntries(leaves[n - 1]);
    }
  }

  lemma {:induction false} RunPrefix(pages: Pages, s: seq<int>, n: nat, m: nat) returns (rest: seq<LocatorEntry>)
    requires n <= m <= |s| && RunIn(pages, s)
    ensures RunEntries(pages, s, m) == RunEntries(pages, s, n) + rest
    ensures n == m ==> rest == []
    decreases m
  {
    if n == m {
      rest := [];
    } else {
      var shorter := RunPrefix(pages, s, n, m - 1);
      rest := shorter + PageEntries(pages[s[m - 1]]);
    }
  }

  // ---- From the proof's entries to all entries ----

  lemma SplitLifts(before: seq<LocatorEntry>, entries: seq<LocatorEntry>, rest: seq<LocatorEntry>, bound: LocatorKey,
                   i: int)
    requires EntriesSorted(before + entries + rest) && SplitsAt(entries, bound, i)
    requires (i == 0 ==> before == []) && (i == |entries| ==> rest == [])
    ensures SplitsAt(before + entries + rest, bound, |before| + i)
  {
    hide KeyLess;
    KeyOrder();
    var all := before + entries + rest;
    var b := |before|;
    forall n | 0 <= n < b + i ensures KeyLess(all[n].key, bound) {
      if n < b { assert KeyLess(all[n].key, all[b + i - 1].key) && all[b + i - 1] == entries[i - 1]; }
      else { assert all[n] == entries[n - b]; }
    }
    forall n | b + i <= n < |all| ensures KeyAtMost(bound, all[n].key) {
      if n >= b + |entries| { assert KeyLess(all[b + i].key, all[n].key) && all[b + i] == entries[i]; }
      else { assert all[n] == entries[n - b]; }
    }
  }

  /** An answer for a stretch that holds both neighbours, or ends where the tree ends, is an answer for the tree. */
  lemma AnswersLift(before: seq<LocatorEntry>, entries: seq<LocatorEntry>, rest: seq<LocatorEntry>, lower: LocatorKey,
                    upper: LocatorKey, result: LocatorRangeResult)
    requires EntriesSorted(before + entries + rest) && Answers(entries, lower, upper, result)
    requires (result.predecessor.None? ==> before == []) && (result.successor.None? ==> rest == [])
    ensures Answers(before + entries + rest, lower, upper, result)
  {
    hide EntriesSorted, SplitsAt;
    var i, j := AnswerSplits(entries, lower, upper, result);
    SplitLifts(before, entries, rest, lower, i);
    SplitLifts(before, entries, rest, upper, j);
    assert (before + entries + rest)[|before| + i..|before| + j] == entries[i..j];
    assert AnswersAt(before + entries + rest, |before| + i, |before| + j, result);
  }

  lemma AnswerSplits(entries: seq<LocatorEntry>, lower: LocatorKey, upper: LocatorKey,
                     result: LocatorRangeResult) returns (i: int, j: int)
    requires Answers(entries, lower, upper, result)
    ensures SplitsAt(entries, lower, i) && SplitsAt(entries, upper, j) && 0 <= i <= j <= |entries|
    ensures AnswersAt(entries, i, j, result)
  {
    hide KeyLess;
    i, j :| SplitsAt(entries, lower, i) && SplitsAt(entries, upper, j) && i <= j && AnswersAt(entries, i, j, result);
  }

  /** A leaf without lower bound is the first, one without a next leaf is the last. */
  lemma AtEdges(pages: Pages, spans: Spans, root: int, height: int, a: nat)
    requires Shape(pages, spans, root, height) && height >= 0 && a < |Traversal(pages, spans, root, height)|
    ensures var s := Traversal(pages, spans, root, height);
      && s[a] in spans && s[a] in pages && (spans[s[a]].lo.None? ==> a == 0)
      && (pages[s[a]].next.None? ==> a == |s| - 1)
  {
    hide Shape, Traversal;
    var s := Traversal(pages, spans, root, height);
    TraversalRun(pages, spans, root, height);
    ChainIsRun(pages, spans, root, height, s, None, None, a);
    if a > 0 { assert spans[s[a - 1]].hi.Some?; }
  }

  /** Whoever accepts a result against the root of a locator tree has the tree's own answer, or a hash collision:
      exactly the entries in the range, in order, and their immediate neighbours or none. */
  lemma RangeProofsAreSound(pages: Pages, spans: Spans, root: int, rootHash: Digest, next: int, height: int,
                            order: int, lower: LocatorKey, upper: LocatorKey, result: LocatorRangeResult)
    requires IsTree(pages, spans, root, rootHash, next, height, order) && Accepts(lower, upper, result, rootHash)
    ensures Answers(TreeEntries(pages, spans, root, height), lower, upper, result)
         || Collide(ProofContents(result.proof.leaves), TreePreimages(pages))
  {
    hide Shape, Traversal, Consecutive, Answers, ReachesRoot, AllHashed, ShowsLeaf, IsLeftmost, IsRun, Collide,
      ProofContents, TreePreimages;
    var leaves := result.proof.leaves;
    if !Collide(ProofContents(leaves), TreePreimages(pages)) {
      ConsecutiveSorted(leaves);
      forall i | 0 <= i < |leaves| ensures ShowsLeaf(pages, leaves[i]) {
        LeafShown(pages, spans, root, height, leaves, i);
      }
      LeafShown(pages, spans, root, height, leaves, 0);
      ShownAnswers(pages, spans, root, height, lower, upper, result);
    }
  }

  lemma ShownAnswers(pages: Pages, spans: Spans, root: int, height: int, lower: LocatorKey, upper: LocatorKey,
                     result: LocatorRangeResult)
    requires Shape(pages, spans, root, height) && height >= 0 && AllShown(pages, result.proof.leaves)
    requires Consecutive(result.proof.leaves)
    requires Answers(FlatEntries(result.proof.leaves, |result.proof.leaves|), lower, upper, result) && EdgesOK(result)
    requires result.proof.leaves[0].pageID in spans
    requires IsLeftmost(result.proof.leaves[0]) ==> spans[result.proof.leaves[0].pageID].lo.None?
    ensures Answers(TreeEntries(pages, spans, root, height), lower, upper, result)
  {
    hide Shape, Traversal, Consecutive, Answers, ShowsLeaf, IsLeftmost, IsRun, FlatEntries, EntriesSorted, RunEntries;
    var leaves, s := result.proof.leaves, Traversal(pages, spans, root, height);
    ConsecutiveSorted(leaves);
    assert ShowsLeaf(pages, leaves[0]) && ShowsLeaf(pages, leaves[|leaves| - 1]);
    ShownNext(pages, leaves[0]);
    ShownNext(pages, leaves[|leaves| - 1]);
    var a := LeafTraversed(pages, spans, root, height, leaves[0].pageID);
    RunShown(pages, spans, root, height, leaves, a, |leaves|);
    TraversalIn(pages, spans, root, height);
    RunEntriesShown(pages, s, leaves, a, |leaves|);
    var b := a + |leaves|;
    assert s[a + (|leaves| - 1)] == leaves[|leaves| - 1].pageID;
    AtEdges(pages, spans, root, height, a);
    AtEdges(pages, spans, root, height, b - 1);
    var rest := RunPrefix(pages, s, b, |s|);
    TraversalRun(pages, spans, root, height);
    RunSorted(pages, spans, root, height, s, |s|);
    FirstEmpty(pages, s);
    AnswersLift(RunEntries(pages, s, a), FlatEntries(leaves, |leaves|), rest, lower, upper, result);
  }

  lemma FirstEmpty(pages: Pages, s: seq<int>)
    requires RunIn(pages, s)
    ensures RunEntries(pages, s, 0) == []
  {}

  // ---- In terms of the inserted records ----

  /** The entries are exactly the records with keys in [lower, upper), in order. */
  ghost predicate RangeOf(contents: Contents, lower: LocatorKey, upper: LocatorKey, entries: seq<LocatorEntry>) {
    && EntriesSorted(entries)
    && forall k, v :: Lists(entries, k, v) <==>
      k in contents && contents[k] == v && KeyAtMost(lower, k) && KeyLess(k, upper)
  }

  /** The greatest record below a bound, if there is one. */
  ghost predicate IsPredecessor(contents: Contents, lower: LocatorKey, entry: Option<LocatorEntry>) {
    match entry
    case None => forall k :: k in contents ==> KeyAtMost(lower, k)
    case Some(e) => e.key in contents && contents[e.key] == e.value && KeyLess(e.key, lower)
                    && forall k :: k in contents && KeyLess(k, lower) ==> KeyAtMost(k, e.key)
  }

  /** The least record at or above a bound, if there is one. */
  ghost predicate IsSuccessor(contents: Contents, upper: LocatorKey, entry: Option<LocatorEntry>) {
    match entry
    case None => forall k :: k in contents ==> KeyLess(k, upper)
    case Some(e) => e.key in contents && contents[e.key] == e.value && KeyAtMost(upper, e.key)
                    && forall k :: k in contents && KeyAtMost(upper, k) ==> KeyAtMost(e.key, k)
  }

  ghost predicate Listing(entries: seq<LocatorEntry>, contents: Contents) {
    forall k, v :: Lists(entries, k, v) <==> k in contents && contents[k] == v
  }

  lemma AnswersInContents(entries: seq<LocatorEntry>, contents: Contents, lower: LocatorKey, upper: LocatorKey,
                          result: LocatorRangeResult)
    requires EntriesSorted(entries) && Listing(entries, contents) && Answers(entries, lower, upper, result)
    requires KeyLess(lower, upper)
    ensures RangeOf(contents, lower, upper, result.entries)
    ensures IsPredecessor(contents, lower, result.predecessor) && IsSuccessor(contents, upper, result.successor)
  {
    hide EntriesSorted, Listing, SplitsAt, RangeOf, IsPredecessor, IsSuccessor, KeyLess;
    var i, j := AnswerSplits(entries, lower, upper, result);
    RangeInContents(entries, contents, lower, upper, i, j);
    PredecessorInContents(entries, contents, lower, i);
    SuccessorInContents(entries, contents, upper, j);
  }

  lemma RangeInContents(entries: seq<LocatorEntry>, contents: Contents, lower: LocatorKey, upper: LocatorKey, i: int,
                        j: int)
    requires EntriesSorted(entries) && Listing(entries, contents) && KeyLess(lower, upper) && i <= j
    requires SplitsAt(entries, lower, i) && SplitsAt(entries, upper, j)
    ensures RangeOf(contents, lower, upper, entries[i..j])
  {
    hide KeyLess;
    var part := entries[i..j];
    forall k, v ensures Lists(part, k, v) <==>
      k in contents && contents[k] == v && KeyAtMost(lower, k) && KeyLess(k, upper) {
      assert Lists(entries, k, v) <==> k in contents && contents[k] == v;
      if Lists(part, k, v) {
        var n :| 0 <= n < |part| && part[n].key == k && part[n].value == v;
        assert entries[i + n] == part[n];
      }
      if Lists(entries, k, v) && KeyAtMost(lower, k) && KeyLess(k, upper) {
        var n :| 0 <= n < |entries| && entries[n].key == k && entries[n].value == v;
        assert i <= n < j;
        assert part[n - i] == entries[n];
      }
    }
    assert EntriesSorted(part) by { assert forall n :: 0 <= n < |part| ==> part[n] == entries[i + n]; }
  }

  /** A record is listed at some position. */
  lemma ListedAt(entries: seq<LocatorEntry>, contents: Contents, k: LocatorKey) returns (n: nat)
    requires Listing(entries, contents) && k in contents
    ensures n < |entries| && entries[n].key == k && entries[n].value == contents[k]
  {
    assert Lists(entries, k, contents[k]);
    n :| 0 <= n < |entries| && entries[n].key == k && entries[n].value == contents[k];
  }

  lemma ListedIn(entries: seq<LocatorEntry>, contents: Contents, n: nat)
    requires Listing(entries, contents) && n < |entries|
    ensures entries[n].key in contents && contents[entries[n].key] == entries[n].value
  {
    assert Lists(entries, entries[n].key, entries[n].value);
  }

  lemma InOrder(entries: seq<LocatorEntry>, n: nat, m: nat)
    requires EntriesSorted(entries) && n <= m < |entries|
    ensures KeyAtMost(entries[n].key, entries[m].key)
  {
    hide KeyLess;
    KeyOrder();
    assert n < m ==> KeyLess(entries[n].key, entries[m].key);
  }

  lemma PredecessorInContents(entries: seq<LocatorEntry>, contents: Contents, lower: LocatorKey, i: int)
    requires EntriesSorted(entries) && Listing(entries, contents) && SplitsAt(entries, lower, i)
    ensures IsPredecessor(contents, lower, EntryBefore(entries, i))
  {
    hide EntriesSorted, Listing, KeyLess;
    if i > 0 {
      ListedIn(entries, contents, i - 1);
      assert KeyLess(entries[i - 1].key, lower);
      forall k | k in contents && KeyLess(k, lower) ensures KeyAtMost(k, entries[i - 1].key) {
        var n := ListedAt(entries, contents, k);
        InOrder(entries, n, i - 1);
      }
    } else {
      forall k | k in contents ensures KeyAtMost(lower, k) {
        var n := ListedAt(entries, contents, k);
        assert KeyAtMost(lower, entries[n].key);
      }
    }
  }

  lemma SuccessorInContents(entries: seq<LocatorEntry>, contents: Contents, upper: LocatorKey, j: int)
    requires EntriesSorted(entries) && Listing(entries, contents) && SplitsAt(entries, upper, j)
    ensures IsSuccessor(contents, upper, EntryFrom(entries, j))
  {
    hide EntriesSorted, Listing, KeyLess;
    if j < |entries| {
      ListedIn(entries, contents, j);
      assert KeyAtMost(upper, entries[j].key);
      forall k | k in contents && KeyAtMost(upper, k) ensures KeyAtMost(entries[j].key, k) {
        var n := ListedAt(entries, contents, k);
        InOrder(entries, j, n);
      }
    } else {
      forall k | k in contents ensures KeyLess(k, upper) {
        var n := ListedAt(entries, contents, k);
        assert KeyLess(entries[n].key, upper);
      }
    }
  }

  /** An accepted result lists exactly the inserted records of the range, with the nearest record on either side,
      or there is a hash collision. */
  lemma AcceptedIsTheRange(pages: Pages, spans: Spans, root: int, rootHash: Digest, next: int, height: int,
                           order: int, contents: Contents, lower: LocatorKey, upper: LocatorKey,
                           result: LocatorRangeResult)
    requires IsTree(pages, spans, root, rootHash, next, height, order) && IsContents(pages, contents)
    requires Accepts(lower, upper, result, rootHash)
    requires !Collide(ProofContents(result.proof.leaves), TreePreimages(pages))
    ensures RangeOf(contents, lower, upper, result.entries)
    ensures IsPredecessor(contents, lower, result.predecessor) && IsSuccessor(contents, upper, result.successor)
  {
    hide Shape, AllHashed, IsContents, Answers, RangeOf, IsPredecessor, IsSuccessor, TreeEntries, Consecutive,
      ReachesRoot, EdgesOK, Collide, ProofContents, TreePreimages, KeyLess, FlatEntries;
    RangeProofsAreSound(pages, spans, root, rootHash, next, height, order, lower, upper, result);
    TreeSorted(pages, spans, root, height);
    TreeListing(pages, spans, root, height, contents);
    AnswersInContents(TreeEntries(pages, spans, root, height), contents, lower, upper, result);
  }

  lemma TreeSorted(pages: Pages, spans: Spans, root: int, height: int)
    requires Shape(pages, spans, root, height) && height >= 0
    ensures EntriesSorted(TreeEntries(pages, spans, root, height))
  {
    hide Shape, Traversal, IsRun, RunEntries, EntriesSorted;
    var s := Traversal(pages, spans, root, height);
    TraversalRun(pages, spans, root, height);
    RunSorted(pages, spans, root, height, s, |s|);
  }

  lemma TreeListing(pages: Pages, spans: Spans, root: int, height: int, contents: Contents)
    requires Shape(pages, spans, root, height) && height >= 0 && IsContents(pages, contents)
    ensures Listing(TreeEntries(pages, spans, root, height), contents)
  {
    hide Shape, IsContents, TreeEntries, Lists;
    forall k, v ensures Lists(TreeEntries(pages, spans, root, height), k, v) <==> k in contents && contents[k] == v {
      TreeListsContents(pages, spans, root, height, contents, k, v);
    }
  }
}
