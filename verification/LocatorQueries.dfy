/** Finding leaves and neighbouring entries through a page reader (internal/all/locator_range.go). */
module LocatorQueries {
  import opened Hashing
  import opened Sorting
  import opened LocatorKeys
  import opened LocatorPages
  import opened LocatorSteps
  import opened LocatorTrees
  import opened LocatorOrder
  import opened LocatorProofs
  import opened LocatorSoundness
  import opened LocatorPositions

  /** A page on the way down and the child taken there. */
  datatype PathStep = PathStep(page: StoredPage, childIndex: int)

  /** What decoding guarantees of a page, and that children never lead back to an ancestor. */
  ghost predicate PageReadable(store: PageStore, rank: map<int, nat>, p: int)
    requires p in store
  {
    && store[p].page.pageID == p && p in rank && |store[p].childHashes| == |store[p].page.children|
    && (store[p].page.isLeaf ==> |store[p].page.values| == |store[p].page.keys|)
    && forall c :: c in store[p].page.children && c in store ==> c in rank && rank[c] < rank[p]
  }

  ghost predicate Readable(store: PageStore, rank: map<int, nat>) {
    forall p :: p in store ==> PageReadable(store, rank, p)
  }

  predicate IsRead(store: PageStore, page: StoredPage) {
    page.page.pageID in store && store[page.page.pageID] == page
  }

  /** The store holds the pages of a tree. */
  ghost predicate Serves(store: PageStore, t: TreeView) {
    t.Valid() && StoreMatches(store, t.pages)
  }

  ghost predicate InTree(t: TreeView, page: StoredPage) {
    page.page.pageID in t.pages && page.page.pageID in t.spans && page == Stored(t.pages, t.pages[page.page.pageID])
  }

  ghost function SpanOf(t: TreeView, page: StoredPage): Span
    requires InTree(t, page)
  {
    t.spans[page.page.pageID]
  }

  /** Reads a child and compares its hash with the parent's. */
  function ReadChild(store: PageStore, parent: StoredPage, i: int): Result<StoredPage>
    requires |parent.childHashes| == |parent.page.children|
  {
    if !(0 <= i < |parent.page.children|) || parent.page.children[i] !in store then Err
    else
      var child := store[parent.page.children[i]];
      if child.page.hash == parent.childHashes[i] then Ok(child) else Err
  }

  lemma ReadOf(store: PageStore, rank: map<int, nat>, parent: StoredPage, i: int)
    requires Readable(store, rank) && IsRead(store, parent)
    ensures |parent.childHashes| == |parent.page.children|
    ensures var r := ReadChild(store, parent, i);
      r.Ok? ==> IsRead(store, r.value) && r.value.page.pageID in rank && parent.page.pageID in rank
                && rank[r.value.page.pageID] < rank[parent.page.pageID]
  {
    assert PageReadable(store, rank, parent.page.pageID);
    if 0 <= i < |parent.page.children| && parent.page.children[i] in store {
      assert parent.page.children[i] in parent.page.children;
      assert PageReadable(store, rank, parent.page.children[i]);
    }
  }

  /** In a served tree every child can be read, and has its share of the parent's interval. */
  lemma ChildRead(store: PageStore, t: TreeView, page: StoredPage, i: int)
    requires Serves(store, t) && InTree(t, page) && !page.page.isLeaf
    ensures |page.childHashes| == |page.page.children| == |page.page.keys| + 1
    ensures var r := ReadChild(store, page, i);
      && (r.Ok? <==> 0 <= i < |page.page.children|)
      && (r.Ok? ==> InTree(t, r.value) && r.value.page.parent.Some?
                    && SpanOf(t, r.value).lo == LowOf(SpanOf(t, page), page.page.keys, i)
                    && SpanOf(t, r.value).hi == HighOf(SpanOf(t, page), page.page.keys, i))
  {
    hide Shape, AllHashed;
    InnerPage(t.pages, t.spans, t.root, t.height, page.page.pageID);
    if 0 <= i < |page.page.children| {
      ChildBelow(t.pages, t.spans, t.root, t.height, page.page.pageID, i);
      PageIDOf(t, page.page.children[i]);
    }
  }

  lemma PageIDOf(t: TreeView, p: int)
    requires t.Valid() && p in t.pages
    ensures t.pages[p].pageID == p && p in t.spans
  {
    hide Shape, AllHashed, Placed, LeafOK, InnerOK;
    PageAt(t.pages, t.spans, t.root, t.height, p);
  }

  lemma RootRead(store: PageStore, t: TreeView)
    requires Serves(store, t)
    ensures t.root in store && InTree(t, store[t.root]) && SpanOf(t, store[t.root]) == Span(t.height, None, None)
    ensures store[t.root].page.hash == t.rootHash
  {
    hide Shape, AllHashed;
    RootSpan(t.pages, t.spans, t.root, t.height);
    PageIDOf(t, t.root);
  }

  // ---- Finding the leaf for a key ----

  /** The steps lead from the root to the page. */
  ghost predicate PathTo(store: PageStore, root: StoredPage, path: seq<PathStep>, page: StoredPage)
    decreases |path|
  {
    if path == [] then page == root
    else
      var last := path[|path| - 1];
      && PathTo(store, root, path[..|path| - 1], last.page) && !last.page.page.isLeaf && IsRead(store, last.page)
      && |last.page.childHashes| == |last.page.page.children|
      && ReadChild(store, last.page, last.childIndex) == Ok(page)
  }

  /** The page is in the tree and responsible for the key. */
  ghost predicate OnWay(t: TreeView, page: StoredPage, key: LocatorKey) {
    InTree(t, page) && Covers(SpanOf(t, page), key)
  }

  lemma WayDown(store: PageStore, t: TreeView, page: StoredPage, key: LocatorKey, idx: nat)
    requires Serves(store, t) && OnWay(t, page, key) && !page.page.isLeaf && IsPlace(page.page.keys, key, idx)
    ensures idx < |page.page.children| && |page.childHashes| == |page.page.children|
    ensures ReadChild(store, page, idx).Ok? && OnWay(t, ReadChild(store, page, idx).value, key)
  {
    hide Serves, InTree, KeyLess;
    ChildRead(store, t, page, idx);
  }

  method FindLeaf(store: PageStore, ghost rank: map<int, nat>, root: StoredPage, key: LocatorKey, ghost t: TreeView)
    returns (r: Result<(StoredPage, seq<PathStep>)>)
    requires Readable(store, rank) && IsRead(store, root)
    ensures r.Ok? ==> IsRead(store, r.value.0) && r.value.0.page.isLeaf && PathTo(store, root, r.value.1, r.value.0)
    ensures Serves(store, t) && root.page.pageID == t.root ==> r.Ok? && OnWay(t, r.value.0, key)
  {
    hide Serves, OnWay, Readable, IsRead, ReadChild, PathTo;
    var page, path := root, [];
    StartWay(store, rank, root, key, t);
    while !page.page.isLeaf
      invariant IsRead(store, page) && page.page.pageID in rank && PathTo(store, root, path, page)
      invariant Serves(store, t) && root.page.pageID == t.root ==> OnWay(t, page, key)
      decreases rank[page.page.pageID]
    {
      var idx := FindKeyIdx(page.page.keys, key);
      if Serves(store, t) && root.page.pageID == t.root { WayDown(store, t, page, key, idx); }
      if idx >= |page.page.children| { return Err; }
      ReadOf(store, rank, page, idx);
      var child := ReadChild(store, page, idx);
      if child.Err? { return Err; }
      PathStepTo(store, root, path, page, idx, child.value);
      path := path + [PathStep(page, idx)];
      page := child.value;
    }
    return Ok((page, path));
  }

  lemma StartWay(store: PageStore, rank: map<int, nat>, root: StoredPage, key: LocatorKey, t: TreeView)
    requires Readable(store, rank) && IsRead(store, root)
    ensures root.page.pageID in rank && PathTo(store, root, [], root)
    ensures Serves(store, t) && root.page.pageID == t.root ==> OnWay(t, root, key)
  {
    hide Serves, InTree;
    assert PageReadable(store, rank, root.page.pageID);
    if Serves(store, t) { RootRead(store, t); }
  }

  lemma PathStepTo(store: PageStore, root: StoredPage, path: seq<PathStep>, page: StoredPage, i: int, child: StoredPage)
    requires PathTo(store, root, path, page) && !page.page.isLeaf && IsRead(store, page)
    requires |page.childHashes| == |page.page.children|
    requires ReadChild(store, page, i) == Ok(child)
    ensures PathTo(store, root, path + [PathStep(page, i)], child)
  {
    hide ReadChild, IsRead;
    var longer := path + [PathStep(page, i)];
    assert longer[..|longer| - 1] == path;
  }

  /** The position of the first key not below the target, by binary search. */
  method LowerBound(keys: seq<LocatorKey>, target: LocatorKey) returns (r: nat)
    ensures r <= |keys|
    ensures KeysSorted(keys) ==>
      (forall i :: 0 <= i < r ==> KeyLess(keys[i], target))
      && forall i :: r <= i < |keys| ==> KeyAtMost(target, keys[i])
  {
    hide KeyLess;
    KeyOrder();
    var reached := (i: int) requires 0 <= i < |keys| => !KeyLess(keys[i], target);
    assert KeysSorted(keys) ==> forall i, j :: 0 <= i < j < |keys| && reached(i) ==> reached(j);
    r := Search(|keys|, reached);
    assert forall i :: 0 <= i < |keys| ==> (reached(i) <==> KeyAtMost(target, keys[i]));
  }

  // ---- Paths in a served tree ----

  /** The n-th page on the path. */
  function NodeAt(path: seq<PathStep>, page: StoredPage, n: nat): StoredPage
    requires n <= |path|
  {
    if n == |path| then page else path[n].page
  }

  lemma {:induction false} PathNode(store: PageStore, root: StoredPage, path: seq<PathStep>, page: StoredPage, n: nat)
    requires PathTo(store, root, path, page) && n < |path|
    ensures !path[n].page.page.isLeaf && IsRead(store, path[n].page)
    ensures |path[n].page.childHashes| == |path[n].page.page.children|
    ensures ReadChild(store, path[n].page, path[n].childIndex) == Ok(NodeAt(path, page, n + 1))
    ensures PathTo(store, root, path[..n], path[n].page)
    decreases |path|
  {
    hide ReadChild, IsRead;
    var shorter := path[..|path| - 1];
    if n < |path| - 1 {
      PathNode(store, root, shorter, path[|path| - 1].page, n);
      assert shorter[..n] == path[..n];
    }
  }

  ghost predicate ServesFrom(store: PageStore, t: TreeView, root: StoredPage) {
    Serves(store, t) && root.page.pageID == t.root && IsRead(store, root)
  }

  lemma {:induction false} PathInTree(store: PageStore, t: TreeView, root: StoredPage, path: seq<PathStep>,
                                      page: StoredPage)
    requires ServesFrom(store, t, root) && PathTo(store, root, path, page)
    ensures InTree(t, page)
    decreases |path|
  {
    hide Serves, ReadChild, InTree;
    if path == [] {
      RootRead(store, t);
    } else {
      var last := path[|path| - 1];
      PathInTree(store, t, root, path[..|path| - 1], last.page);
      ChildRead(store, t, last.page, last.childIndex);
    }
  }

  /** The bounds of a page on the path, compared with those of the page before it. */
  lemma PathBounds(store: PageStore, t: TreeView, root: StoredPage, path: seq<PathStep>, page: StoredPage, n: nat)
    requires ServesFrom(store, t, root) && PathTo(store, root, path, page) && n < |path|
    ensures var above, below, i := path[n].page, NodeAt(path, page, n + 1), path[n].childIndex;
      && InTree(t, above) && InTree(t, below) && !above.page.isLeaf && |above.page.children| == |above.page.keys| + 1
      && 0 <= i < |above.page.children|
      && SpanOf(t, below).lo == LowOf(SpanOf(t, above), above.page.keys, i)
      && SpanOf(t, below).hi == HighOf(SpanOf(t, above), above.page.keys, i)
  {
    hide Serves, ReadChild, InTree, PathTo;
    PathNode(store, root, path, page, n);
    PathInTree(store, t, root, path[..n], path[n].page);
    ChildRead(store, t, path[n].page, path[n].childIndex);
  }

  // ---- Neighbouring entries ----

  /** The leaf is the n-th of the served tree. */
  ghost predicate IsNth(store: PageStore, t: TreeView, root: StoredPage, leaf: StoredPage, n: nat) {
    ServesFrom(store, t, root) && InTree(t, leaf) && n < |Leaves(t)| && leaf.page.pageID == Leaves(t)[n]
  }

  lemma NthIs(store: PageStore, t: TreeView, root: StoredPage, leaf: StoredPage, n: nat)
    requires IsNth(store, t, root, leaf, n)
    ensures t.Valid() && n < |Leaves(t)| && leaf.page == LeafAt(t, n) && SpanOf(t, leaf) == SpanAt(t, n)
  {
    hide TreeView.Valid, Leaves, StoreMatches;
    SpanIs(t, n);
  }

  /** The page is an edge of the subtree: it shares the subtree's upper, or lower, bound. */
  ghost predicate OnEdge(t: TreeView, start: StoredPage, page: StoredPage, right: bool) {
    InTree(t, start) && InTree(t, page)
    && if right then SpanOf(t, page).hi == SpanOf(t, start).hi else SpanOf(t, page).lo == SpanOf(t, start).lo
  }

  /** Descends along the right or left edge of a subtree. */
  method EdgeLeaf(store: PageStore, ghost rank: map<int, nat>, start: StoredPage, right: bool,
                  ghost t: TreeView) returns (r: Result<StoredPage>)
    requires Readable(store, rank) && IsRead(store, start)
    ensures r.Ok? ==> IsRead(store, r.value) && r.value.page.isLeaf
    ensures Serves(store, t) && InTree(t, start) ==> r.Ok? && OnEdge(t, start, r.value, right)
  {
    hide Serves, InTree, Readable, IsRead, ReadChild, OnEdge;
    var page := start;
    EdgeStart(store, rank, t, start, right);
    while !page.page.isLeaf
      invariant IsRead(store, page) && page.page.pageID in rank
      invariant Serves(store, t) && InTree(t, start) ==> OnEdge(t, start, page, right)
      decreases rank[page.page.pageID]
    {
      var i := if right then |page.page.children| - 1 else 0;
      if Serves(store, t) && InTree(t, start) { EdgeDown(store, t, start, page, right); }
      ReadOf(store, rank, page, i);
      if |page.page.children| == 0 { return Err; }
      var child := ReadChild(store, page, i);
      if child.Err? { return Err; }
      page := child.value;
    }
    return Ok(page);
  }

  lemma EdgeStart(store: PageStore, rank: map<int, nat>, t: TreeView, start: StoredPage, right: bool)
    requires Readable(store, rank) && IsRead(store, start)
    ensures start.page.pageID in rank && (InTree(t, start) ==> OnEdge(t, start, start, right))
  {
    hide InTree;
    assert PageReadable(store, rank, start.page.pageID);
  }

  lemma EdgeDown(store: PageStore, t: TreeView, start: StoredPage, page: StoredPage, right: bool)
    requires Serves(store, t) && OnEdge(t, start, page, right) && !page.page.isLeaf
    ensures |page.page.children| > 0 && |page.childHashes| == |page.page.children|
    ensures var r := ReadChild(store, page, if right then |page.page.children| - 1 else 0);
      r.Ok? && OnEdge(t, start, r.value, right)
  {
    hide Serves, InTree, ReadChild;
    ChildRead(store, t, page, if right then |page.page.children| - 1 else 0);
  }

  /** Walking up, every page passed so far starts where the leaf starts. */
  ghost predicate SameLowAt(t: TreeView, path: seq<PathStep>, leaf: StoredPage, level: nat)
    requires level <= |path|
  {
    InTree(t, leaf) && InTree(t, NodeAt(path, leaf, level))
    && SpanOf(t, NodeAt(path, leaf, level)).lo == SpanOf(t, leaf).lo
  }

  ghost predicate SameHighAt(t: TreeView, path: seq<PathStep>, leaf: StoredPage, level: nat)
    requires level <= |path|
  {
    InTree(t, leaf) && InTree(t, NodeAt(path, leaf, level))
    && SpanOf(t, NodeAt(path, leaf, level)).hi == SpanOf(t, leaf).hi
  }

  method PredecessorEntry(store: PageStore, ghost rank: map<int, nat>, ghost root: StoredPage, leaf: StoredPage,
                          index: nat, path: seq<PathStep>, ghost t: TreeView,
                          ghost n: nat) returns (r: Result<Option<LocatorEntry>>)
    requires Readable(store, rank) && IsRead(store, leaf) && leaf.page.isLeaf && index <= |leaf.page.keys|
    requires PathTo(store, root, path, leaf)
    ensures IsNth(store, t, root, leaf, n) ==>
      0 <= Start(t, n) + index <= |Entries(t)| && r == Ok(EntryBefore(Entries(t), Start(t, n) + index))
  {
    hide IsNth, Readable, PathTo, SameLowAt, IsRead, ReadChild, PageEntries, InTree, Start, Entries;
    if IsNth(store, t, root, leaf, n) { PositionInRange(store, t, root, leaf, index, n); }
    if index > 0 {
      if IsNth(store, t, root, leaf, n) { OwnEntry(store, t, root, leaf, n, index - 1); }
      return Ok(Some(PageEntries(leaf.page)[index - 1]));
    }
    if IsNth(store, t, root, leaf, n) { LowStart(store, t, root, path, leaf, n); }
    var level := |path|;
    while level > 0
      invariant 0 <= level <= |path|
      invariant IsNth(store, t, root, leaf, n) ==> SameLowAt(t, path, leaf, level)
    {
      level := level - 1;
      var step := path[level];
      PathNode(store, root, path, leaf, level);
      ReadOf(store, rank, step.page, step.childIndex - 1);
      if IsNth(store, t, root, leaf, n) { LowStep(store, t, root, path, leaf, n, level); }
      if step.childIndex == 0 { continue; }
      var sibling := ReadChild(store, step.page, step.childIndex - 1);
      if sibling.Err? { return Err; }
      var page := EdgeLeaf(store, rank, sibling.value, true, t);
      if page.Err? { return Err; }
      if IsNth(store, t, root, leaf, n) { LeafBefore(store, t, root, leaf, n, sibling.value, page.value); }
      if |page.value.page.keys| == 0 { return Ok(None); }
      return Ok(Some(PageEntries(page.value.page)[|page.value.page.keys| - 1]));
    }
    if IsNth(store, t, root, leaf, n) { NoneBefore(store, t, root, path, leaf, n); }
    return Ok(None);
  }

  lemma PositionInRange(store: PageStore, t: TreeView, root: StoredPage, leaf: StoredPage, index: nat, n: nat)
    requires IsNth(store, t, root, leaf, n) && index <= |leaf.page.keys|
    ensures t.Valid() && n < |Leaves(t)| && Start(t, n) + index <= |Entries(t)|
  {
    hide ServesFrom, InTree, Leaves, Start, Entries;
    NthIs(store, t, root, leaf, n);
    var rest := EntriesOfLeaf(t, n);
  }

  lemma OwnEntry(store: PageStore, t: TreeView, root: StoredPage, leaf: StoredPage, n: nat, k: nat)
    requires IsNth(store, t, root, leaf, n) && k < |leaf.page.keys|
    ensures t.Valid() && n < |Leaves(t)| && Start(t, n) + k < |Entries(t)|
    ensures Entries(t)[Start(t, n) + k] == PageEntries(leaf.page)[k]
  {
    hide ServesFrom, InTree, Leaves, Start, Entries, PageEntries;
    NthIs(store, t, root, leaf, n);
    EntryAtPosition(t, n, k);
  }

  lemma LowStart(store: PageStore, t: TreeView, root: StoredPage, path: seq<PathStep>, leaf: StoredPage, n: nat)
    requires IsNth(store, t, root, leaf, n)
    ensures SameLowAt(t, path, leaf, |path|) && SameHighAt(t, path, leaf, |path|)
  {}

  lemma LowStep(store: PageStore, t: TreeView, root: StoredPage, path: seq<PathStep>, leaf: StoredPage, n: nat,
                level: nat)
    requires IsNth(store, t, root, leaf, n) && PathTo(store, root, path, leaf) && level < |path|
    requires SameLowAt(t, path, leaf, level + 1)
    ensures Serves(store, t)
    ensures path[level].childIndex == 0 ==> SameLowAt(t, path, leaf, level)
    ensures |path[level].page.childHashes| == |path[level].page.page.children|
    ensures path[level].childIndex != 0 ==>
      var r := ReadChild(store, path[level].page, path[level].childIndex - 1);
      r.Ok? && InTree(t, r.value) && SpanOf(t, r.value).hi.Some? && SpanOf(t, r.value).hi == SpanOf(t, leaf).lo
  {
    hide Serves, InTree, PathTo, ReadChild;
    PathBounds(store, t, root, path, leaf, level);
    ChildRead(store, t, path[level].page, path[level].childIndex - 1);
  }

  lemma LeafBefore(store: PageStore, t: TreeView, root: StoredPage, leaf: StoredPage, n: nat, sibling: StoredPage,
                   page: StoredPage)
    requires IsNth(store, t, root, leaf, n) && OnEdge(t, sibling, page, true) && page.page.isLeaf
    requires SpanOf(t, sibling).hi.Some? && SpanOf(t, sibling).hi == SpanOf(t, leaf).lo
    ensures t.Valid() && n < |Leaves(t)| && 0 < Start(t, n) <= |Entries(t)| && page.page.keys != []
    ensures EntryBefore(Entries(t), Start(t, n)) == Some(PageEntries(page.page)[|page.page.keys| - 1])
  {
    hide Serves, Leaves, Start, Entries, PageEntries, TreeView.Valid, SpanAt, Stored;
    NthIs(store, t, root, leaf, n);
    StoredPageIs(t, page);
    var m := IndexOfLeaf(t, page.page.pageID);
    SpanIs(t, m);
    Ends(t);
    Adjacent(t, m);
    SameLow(t, m + 1, n);
    NonEmpty(t, m);
    NextStart(t, m);
    EntryAtPosition(t, m, |page.page.keys| - 1);
  }

  lemma StoredPageIs(t: TreeView, page: StoredPage)
    requires InTree(t, page)
    ensures page.page.pageID in t.pages && page.page == t.pages[page.page.pageID]
  {}

  lemma NoneBefore(store: PageStore, t: TreeView, root: StoredPage, path: seq<PathStep>, leaf: StoredPage, n: nat)
    requires IsNth(store, t, root, leaf, n) && PathTo(store, root, path, leaf) && SameLowAt(t, path, leaf, 0)
    ensures n == 0 && t.Valid() && Start(t, n) == 0
  {
    hide Serves, Leaves, Start, Entries, PageEntries, TreeView.Valid, SpanAt, InTree, ReadChild;
    RootRead(store, t);
    NodeRoot(store, root, path, leaf);
    NthIs(store, t, root, leaf, n);
    if n > 0 { LowsIncrease(t, 0, n); }
    NoEntriesBefore(t);
  }

  lemma NodeRoot(store: PageStore, root: StoredPage, path: seq<PathStep>, leaf: StoredPage)
    requires PathTo(store, root, path, leaf)
    ensures NodeAt(path, leaf, 0) == root
  {
    hide ReadChild, IsRead;
    if path != [] {
      PathNode(store, root, path, leaf, 0);
      assert path[..0] == [];
    }
  }

  method SuccessorEntry(store: PageStore, ghost rank: map<int, nat>, ghost root: StoredPage, leaf: StoredPage,
                        index: nat, path: seq<PathStep>, ghost t: TreeView,
                        ghost n: nat) returns (r: Result<Option<LocatorEntry>>)
    requires Readable(store, rank) && IsRead(store, leaf) && leaf.page.isLeaf && index <= |leaf.page.keys|
    requires PathTo(store, root, path, leaf)
    ensures IsNth(store, t, root, leaf, n) ==>
      0 <= Start(t, n) + index <= |Entries(t)| && r == Ok(EntryFrom(Entries(t), Start(t, n) + index))
  {
    hide IsNth, Readable, PathTo, SameHighAt, IsRead, ReadChild, PageEntries, InTree, Start, Entries;
    if IsNth(store, t, root, leaf, n) { PositionInRange(store, t, root, leaf, index, n); }
    if index < |leaf.page.keys| {
      if IsNth(store, t, root, leaf, n) { OwnEntry(store, t, root, leaf, n, index); }
      return Ok(Some(PageEntries(leaf.page)[index]));
    }
    if IsNth(store, t, root, leaf, n) { LowStart(store, t, root, path, leaf, n); }
    var level := |path|;
    while level > 0
      invariant 0 <= level <= |path|
      invariant IsNth(store, t, root, leaf, n) ==> SameHighAt(t, path, leaf, level)
    {
      level := level - 1;
      var step := path[level];
      PathNode(store, root, path, leaf, level);
      ReadOf(store, rank, step.page, step.childIndex + 1);
      if IsNth(store, t, root, leaf, n) { HighStep(store, t, root, path, leaf, n, level); }
      if step.childIndex + 1 >= |step.page.page.children| { continue; }
      var sibling := ReadChild(store, step.page, step.childIndex + 1);
      if sibling.Err? { return Err; }
      var page := EdgeLeaf(store, rank, sibling.value, false, t);
      if page.Err? { return Err; }
      if IsNth(store, t, root, leaf, n) { LeafAfter(store, t, root, leaf, n, sibling.value, page.value); }
      if |page.value.page.keys| == 0 { return Ok(None); }
      return Ok(Some(PageEntries(page.value.page)[0]));
    }
    if IsNth(store, t, root, leaf, n) { NoneAfter(store, t, root, path, leaf, n); }
    return Ok(None);
  }

  lemma HighStep(store: PageStore, t: TreeView, root: StoredPage, path: seq<PathStep>, leaf: StoredPage, n: nat,
                 level: nat)
    requires IsNth(store, t, root, leaf, n) && PathTo(store, root, path, leaf) && level < |path|
    requires SameHighAt(t, path, leaf, level + 1)
    ensures Serves(store, t)
    ensures |path[level].page.childHashes| == |path[level].page.page.children|
    ensures path[level].childIndex + 1 >= |path[level].page.page.children| ==> SameHighAt(t, path, leaf, level)
    ensures path[level].childIndex + 1 < |path[level].page.page.children| ==>
      var r := ReadChild(store, path[level].page, path[level].childIndex + 1);
      r.Ok? && InTree(t, r.value) && SpanOf(t, r.value).lo.Some? && SpanOf(t, r.value).lo == SpanOf(t, leaf).hi
  {
    hide Serves, InTree, PathTo, ReadChild;
    PathBounds(store, t, root, path, leaf, level);
    ChildRead(store, t, path[level].page, path[level].childIndex + 1);
  }

  lemma LeafAfter(store: PageStore, t: TreeView, root: StoredPage, leaf: StoredPage, n: nat, sibling: StoredPage,
                  page: StoredPage)
    requires IsNth(store, t, root, leaf, n) && OnEdge(t, sibling, page, false) && page.page.isLeaf
    requires SpanOf(t, sibling).lo.Some? && SpanOf(t, sibling).lo == SpanOf(t, leaf).hi
    ensures t.Valid() && n < |Leaves(t)| && Start(t, n) + |leaf.page.keys| < |Entries(t)| && page.page.keys != []
    ensures EntryFrom(Entries(t), Start(t, n) + |leaf.page.keys|) == Some(PageEntries(page.page)[0])
  {
    hide Serves, Leaves, Start, Entries, PageEntries, TreeView.Valid, SpanAt, Stored;
    NthIs(store, t, root, leaf, n);
    StoredPageIs(t, page);
    var m := IndexOfLeaf(t, page.page.pageID);
    SpanIs(t, m);
    Ends(t);
    Adjacent(t, n);
    SameLow(t, m, n + 1);
    NextStart(t, n);
    EntryAtPosition(t, m, 0);
  }

  lemma NoneAfter(store: PageStore, t: TreeView, root: StoredPage, path: seq<PathStep>, leaf: StoredPage, n: nat)
    requires IsNth(store, t, root, leaf, n) && PathTo(store, root, path, leaf) && SameHighAt(t, path, leaf, 0)
    ensures t.Valid() && n < |Leaves(t)| && Start(t, n) + |leaf.page.keys| == |Entries(t)|
  {
    hide Serves, Leaves, Start, Entries, PageEntries, TreeView.Valid, SpanAt, InTree, ReadChild;
    RootRead(store, t);
    NodeRoot(store, root, path, leaf);
    NthIs(store, t, root, leaf, n);
    if n + 1 < |Leaves(t)| { Adjacent(t, n); }
    NextStart(t, n);
    StartEnds(t);
  }

  /** The first entry not below a key. */
  method LowerBoundEntry(store: PageStore, ghost rank: map<int, nat>, root: StoredPage, key: LocatorKey,
                         ghost t: TreeView)
    returns (r: Result<Option<LocatorEntry>>, ghost j: int)
    requires Readable(store, rank) && IsRead(store, root)
    ensures ServesFrom(store, t, root) ==>
      0 <= j <= |Entries(t)| && SplitsAt(Entries(t), key, j) && r == Ok(EntryFrom(Entries(t), j))
  {
    hide Serves, OnWay, Readable, IsRead, PathTo, IsNth, SplitsAt, Start, Entries;
    j := 0;
    var found := FindLeaf(store, rank, root, key, t);
    if found.Err? { return Err, j; }
    var (leaf, path) := found.value;
    var index := LowerBound(leaf.page.keys, key);
    ghost var n := 0;
    if ServesFrom(store, t, root) {
      n := NthFor(store, t, root, leaf, key, index);
      j := Start(t, n) + index;
    }
    r := SuccessorEntry(store, rank, root, leaf, index, path, t, n);
  }

  /** The leaf found for a key, and the position of the key among all entries. */
  lemma NthFor(store: PageStore, t: TreeView, root: StoredPage, leaf: StoredPage, key: LocatorKey,
               index: nat) returns (n: nat)
    requires ServesFrom(store, t, root) && OnWay(t, leaf, key) && leaf.page.isLeaf && index <= |leaf.page.keys|
    requires KeysSorted(leaf.page.keys) ==>
      (forall i :: 0 <= i < index ==> KeyLess(leaf.page.keys[i], key))
      && forall i :: index <= i < |leaf.page.keys| ==> KeyAtMost(key, leaf.page.keys[i])
    ensures IsNth(store, t, root, leaf, n) && t.Valid() && n < |Leaves(t)|
    ensures SplitsAt(Entries(t), key, Start(t, n) + index)
    ensures Covers(SpanAt(t, n), key)
  {
    hide StoreMatches, Leaves, Start, Entries, TreeView.Valid, SpanAt, Stored, KeyLess, KeysSorted, Covers;
    StoredPageIs(t, leaf);
    n := IndexOfLeaf(t, leaf.page.pageID);
    NthIs(store, t, root, leaf, n);
    LeafFacts(t, n);
    SplitInLeaf(t, n, key, index);
  }
}
