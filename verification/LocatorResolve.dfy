/** Answering range queries (internal/all/locator_range.go). */
module LocatorResolve {
  import opened Hashing
  import opened LocatorKeys
  import opened LocatorPages
  import opened LocatorTrees
  import opened LocatorOrder
  import opened LocatorProofs
  import opened LocatorSoundness
  import opened LocatorPositions
  import opened LocatorQueries
  import opened LocatorChains
  import opened LocatorRanges

  // ---- Building the proof ----

  /** The start leaf and the answer found so far are those of a served tree. */
  ghost predicate Ready(store: PageStore, t: TreeView, root: StoredPage, leaf: StoredPage, a: nat, i: int, j: int,
                        result: LocatorRangeResult, trustedRoot: Digest)
  {
    && IsNth(store, t, root, leaf, a) && trustedRoot == t.rootHash && 0 <= i <= j <= |Entries(t)|
    && Start(t, a) <= i <= Start(t, a + 1) && AnswersAt(Entries(t), i, j, result)
  }

  function Listed(entry: Option<LocatorEntry>): seq<LocatorEntry> {
    if entry.None? then [] else [entry.value]
  }

  function Wanted(result: LocatorRangeResult): seq<LocatorEntry> {
    Listed(result.predecessor) + result.entries + Listed(result.successor)
  }

  lemma WantedIs(t: TreeView, i: int, j: int, result: LocatorRangeResult)
    requires t.Valid() && 0 <= i <= j <= |Entries(t)| && AnswersAt(Entries(t), i, j, result)
    ensures Low(i) <= High(t, j) <= |Entries(t)| && Wanted(result) == Entries(t)[Low(i)..High(t, j)]
  {
    hide TreeView.Valid, Entries;
    var all := Entries(t);
    if i > 0 { assert all[i - 1..j] == [all[i - 1]] + all[i..j]; }
    if j < |all| { assert all[Low(i)..j + 1] == all[Low(i)..j] + [all[j]]; }
  }

  method AddLeaf(leaves: seq<LocatorLeafProof>, included: set<int>, leaf: StoredPage, path: seq<PathStep>,
                 trustedRoot: Digest)
    returns (r: Result<seq<LocatorLeafProof>>)
    requires included == IDs(leaves)
    ensures var proof := MakeLeafProof(leaf, path);
      r == if proof.pageID in IDs(leaves) then Ok(leaves)
           else if Climbed(proof, |proof.path|) == Ok(trustedRoot) then Ok(leaves + [proof]) else Err
  {
    hide Climbed, IDs;
    if leaf.page.pageID in included { return Ok(leaves); }
    var proof := MakeLeafProof(leaf, path);
    var reconstructed := ReconstructLocatorRoot(proof);
    if reconstructed != Ok(trustedRoot) { return Err; }
    return Ok(leaves + [proof]);
  }

  /** Adding the proof of a leaf of the window to those gathered. */
  lemma AddedLeaf(store: PageStore, t: TreeView, root: StoredPage, leaf: StoredPage, path: seq<PathStep>, m: nat,
                  leaves: seq<LocatorLeafProof>, b: nat, c: nat)
    requires IsNth(store, t, root, leaf, m) && PathTo(store, root, path, leaf) && t.Valid()
    requires Gathered(t, leaves, b, c) && b <= m < c
    ensures var proof := MakeLeafProof(leaf, path);
      && Climbed(proof, |proof.path|) == Ok(t.rootHash)
      && var after := if proof.pageID in IDs(leaves) then leaves else leaves + [proof];
         Gathered(t, after, b, c) && Has(t, after, m) && forall n: nat :: Has(t, leaves, n) ==> Has(t, after, n)
  {
    hide TreeView.Valid, Leaves, ServesFrom, PathTo, Climbed, ShowsLeaf, IsLeftmost, IsRightmost, IDs;
    var proof := MakeLeafProof(leaf, path);
    ProofShows(store, t, root, leaf, path, m);
    if proof.pageID !in IDs(leaves) { LongerDistinct(leaves, proof); }
  }

  /** All that was wanted so far has its leaf among those gathered. */
  ghost predicate Gathering(t: TreeView, leaves: seq<LocatorLeafProof>, b: nat, c: nat, a: nat, low: int, x: int)
    requires t.Valid()
  {
    Gathered(t, leaves, b, c) && Has(t, leaves, a)
    && forall y, m: nat :: low <= y < x && InLeaf(t, m, y) ==> Has(t, leaves, m)
  }

  /** The entry is of the leaf it names, and finding its key finds that leaf. */
  lemma EntryFound(store: PageStore, t: TreeView, root: StoredPage, x: nat, m: nat)
    requires ServesFrom(store, t, root) && t.Valid() && x < |Entries(t)| && InLeaf(t, m, x)
    ensures Entries(t)[x].pageID == Leaves(t)[m]
    ensures forall leaf :: OnWay(t, leaf, Entries(t)[x].key) && leaf.page.isLeaf ==> IsNth(store, t, root, leaf, m)
  {
    hide TreeView.Valid, Leaves, Start, Entries, Serves, Covers;
    NextStart(t, m);
    var k := x - Start(t, m);
    EntryAtPosition(t, m, k);
    LeafFacts(t, m);
    assert Entries(t)[x] == LocatorEntry(LeafAt(t, m).pageID, LeafAt(t, m).keys[k], LeafAt(t, m).values[k]);
    forall leaf | OnWay(t, leaf, Entries(t)[x].key) && leaf.page.isLeaf ensures IsNth(store, t, root, leaf, m) {
      SameLeaf(t, leaf, m, Entries(t)[x].key);
    }
  }

  lemma SameLeaf(t: TreeView, leaf: StoredPage, m: nat, key: LocatorKey)
    requires t.Valid() && OnWay(t, leaf, key) && leaf.page.isLeaf && m < |Leaves(t)| && Leaves(t)[m] in t.spans
    requires Covers(t.spans[Leaves(t)[m]], key)
    ensures leaf.page.pageID == Leaves(t)[m]
  {
    hide Shape, AllHashed, Covers, Traversal, Stored;
    LeafFacts(t, m);
    StoredPageIs(t, leaf);
    var n := IndexOfLeaf(t, leaf.page.pageID);
    LeafFacts(t, n);
    OnePage(t.pages, t.spans, t.root, t.height, leaf.page.pageID, Leaves(t)[m], key);
  }

  method BuildRangeProof(store: PageStore, ghost rank: map<int, nat>, root: StoredPage, startLeaf: StoredPage,
                         startPath: seq<PathStep>, result: LocatorRangeResult, trustedRoot: Digest, ghost t: TreeView,
                         ghost a: nat, ghost i: int, ghost j: int)
    returns (r: Result<LocatorRangeProof>, ghost b: nat, ghost c: nat)
    requires Readable(store, rank) && IsRead(store, root) && IsRead(store, startLeaf) && startLeaf.page.isLeaf
    requires PathTo(store, root, startPath, startLeaf)
    ensures Ready(store, t, root, startLeaf, a, i, j, result, trustedRoot) ==>
      r.Ok? && Window(t, i, j, b, c) && ShowsFrom(t, r.value.leaves, b) && b + |r.value.leaves| == c
      && r.value.reconstructedRoot == trustedRoot
  {
    hide Ready, Readable, IsRead, PathTo, Window, ShowsFrom, Gathering, IDs, OnWay, Climbed, IsChainOf;
    b, c := 0, 0;
    NoIDs();
    var added := AddLeaf([], {}, startLeaf, startPath, trustedRoot);
    if Ready(store, t, root, startLeaf, a, i, j, result, trustedRoot) {
      b, c := StartGathering(store, t, root, startLeaf, startPath, a, i, j, result, trustedRoot);
      assert [] + [MakeLeafProof(startLeaf, startPath)] == [MakeLeafProof(startLeaf, startPath)];
    }
    if added.Err? { return Err, b, c; }
    var leaves, wanted := added.value, Wanted(result);
    var included := IDs(leaves);
    for x := 0 to |wanted|
      invariant included == IDs(leaves)
      invariant Ready(store, t, root, startLeaf, a, i, j, result, trustedRoot) ==>
        GatheringFor(t, i, j, b, c, a, leaves, x)
    {
      var entry := wanted[x];
      ghost var m := 0;
      if Ready(store, t, root, startLeaf, a, i, j, result, trustedRoot) {
        m := GatherNext(store, t, root, startLeaf, a, i, j, result, trustedRoot, leaves, b, c, x);
      }
      if entry.pageID in included { continue; }
      var found := FindLeaf(store, rank, root, entry.key, t);
      if found.Err? { return Err, b, c; }
      var (leaf, path) := found.value;
      if leaf.page.pageID != entry.pageID { return Err, b, c; }
      if Ready(store, t, root, startLeaf, a, i, j, result, trustedRoot) {
        GatherAdded(store, t, root, leaf, path, m, i, j, b, c, a, leaves, x);
      }
      added := AddLeaf(leaves, included, leaf, path, trustedRoot);
      if added.Err? { return Err, b, c; }
      leaves := added.value;
      included := IDs(leaves);
    }
    ghost var chain := [];
    if Ready(store, t, root, startLeaf, a, i, j, result, trustedRoot) {
      chain := GatherDone(store, t, root, startLeaf, a, i, j, result, trustedRoot, leaves, b, c);
    }
    var ordered := OrderLeafProofs(leaves, chain);
    if ordered.Err? { return Err, b, c; }
    return Ok(LocatorRangeProof(ordered.value, trustedRoot)), b, c;
  }

  /** The leaves of the first x wanted entries are gathered. */
  ghost predicate GatheringFor(t: TreeView, i: int, j: int, b: nat, c: nat, a: nat, leaves: seq<LocatorLeafProof>,
                               x: nat) {
    t.Valid() && Window(t, i, j, b, c) && Gathering(t, leaves, b, c, a, Low(i), Low(i) + x)
  }

  lemma StartGathering(store: PageStore, t: TreeView, root: StoredPage, leaf: StoredPage, path: seq<PathStep>, a: nat,
                       i: int, j: int, result: LocatorRangeResult, trustedRoot: Digest) returns (b: nat, c: nat)
    requires Ready(store, t, root, leaf, a, i, j, result, trustedRoot) && PathTo(store, root, path, leaf)
    ensures var proof := MakeLeafProof(leaf, path);
      Climbed(proof, |proof.path|) == Ok(trustedRoot) && GatheringFor(t, i, j, b, c, a, [proof], 0)
  {
    hide TreeView.Valid, Leaves, Start, Entries, ServesFrom, PathTo, Climbed, Gathered, Window, Has, InTree, IDs;
    NthIs(store, t, root, leaf, a);
    b, c := FindWindow(t, i, j, a);
    NothingGathered(t, b, c);
    AddedLeaf(store, t, root, leaf, path, a, [], b, c);
    assert [] + [MakeLeafProof(leaf, path)] == [MakeLeafProof(leaf, path)];
  }

  lemma NothingGathered(t: TreeView, b: nat, c: nat)
    requires t.Valid()
    ensures Gathered(t, [], b, c) && IDs([]) == {}
  {}

  /** The next wanted entry is in a leaf of the window. */
  lemma GatherNext(store: PageStore, t: TreeView, root: StoredPage, leaf: StoredPage, a: nat, i: int, j: int,
                   result: LocatorRangeResult, trustedRoot: Digest, leaves: seq<LocatorLeafProof>, b: nat, c: nat,
                   x: nat) returns (m: nat)
    requires Ready(store, t, root, leaf, a, i, j, result, trustedRoot) && GatheringFor(t, i, j, b, c, a, leaves, x)
    requires x < |Wanted(result)|
    ensures ServesFrom(store, t, root) && trustedRoot == t.rootHash && b <= m < c <= |Leaves(t)|
    ensures Wanted(result)[x].pageID == Leaves(t)[m]
    ensures InLeaf(t, m, Low(i) + x)
    ensures forall found :: OnWay(t, found, Wanted(result)[x].key) && found.page.isLeaf ==>
      IsNth(store, t, root, found, m)
    ensures Wanted(result)[x].pageID in IDs(leaves) ==> GatheringFor(t, i, j, b, c, a, leaves, x + 1)
  {
    hide TreeView.Valid, Leaves, Start, Entries, ServesFrom, Gathered, Has, InTree, InLeaf, Wanted, OnWay, AnswersAt,
      IDs;
    WantedIs(t, i, j, result);
    var y := Low(i) + x;
    m := LocateLeaf(t, y);
    InWindow(t, i, j, b, c, m, y);
    EntryFound(store, t, root, y, m);
    assert Wanted(result)[x] == Entries(t)[y];
    if Wanted(result)[x].pageID in IDs(leaves) {
      assert Has(t, leaves, m) by { HasIs(t, leaves, m); }
      GatherOne(t, leaves, b, c, a, Low(i), y, m);
    }
  }

  lemma HasIs(t: TreeView, leaves: seq<LocatorLeafProof>, m: nat)
    requires t.Valid() && m < |Leaves(t)|
    ensures Has(t, leaves, m) <==> Leaves(t)[m] in IDs(leaves)
  {}

  lemma GatherOne(t: TreeView, leaves: seq<LocatorLeafProof>, b: nat, c: nat, a: nat, low: int, y: int, m: nat)
    requires t.Valid() && Gathering(t, leaves, b, c, a, low, y) && InLeaf(t, m, y) && Has(t, leaves, m)
    ensures Gathering(t, leaves, b, c, a, low, y + 1)
  {
    hide TreeView.Valid, Leaves, Start, Gathered, Has;
    forall n: nat | InLeaf(t, n, y) ensures n == m {
      StartOrder(t, n, m + 1);
      StartOrder(t, m, n + 1);
    }
  }

  lemma GatherAdded(store: PageStore, t: TreeView, root: StoredPage, leaf: StoredPage, path: seq<PathStep>, m: nat,
                    i: int, j: int, b: nat, c: nat, a: nat, leaves: seq<LocatorLeafProof>, x: nat)
    requires IsNth(store, t, root, leaf, m) && PathTo(store, root, path, leaf)
    requires GatheringFor(t, i, j, b, c, a, leaves, x)
    requires InLeaf(t, m, Low(i) + x) && b <= m < c
    ensures var proof := MakeLeafProof(leaf, path);
      && Climbed(proof, |proof.path|) == Ok(t.rootHash)
      && GatheringFor(t, i, j, b, c, a, if proof.pageID in IDs(leaves) then leaves else leaves + [proof], x + 1)
  {
    hide TreeView.Valid, Leaves, Start, Entries, IsNth, PathTo, Climbed, Gathered, Has, InLeaf, IDs, Window;
    AddedLeaf(store, t, root, leaf, path, m, leaves, b, c);
    var proof := MakeLeafProof(leaf, path);
    GatherOne(t, if proof.pageID in IDs(leaves) then leaves else leaves + [proof], b, c, a, Low(i), Low(i) + x, m);
  }

  /** Once all wanted entries have their leaves, the leaves form the chain of the window. */
  lemma GatherDone(store: PageStore, t: TreeView, root: StoredPage, leaf: StoredPage, a: nat, i: int, j: int,
                   result: LocatorRangeResult, trustedRoot: Digest, leaves: seq<LocatorLeafProof>, b: nat,
                   c: nat) returns (chain: seq<LocatorLeafProof>)
    requires Ready(store, t, root, leaf, a, i, j, result, trustedRoot)
    requires GatheringFor(t, i, j, b, c, a, leaves, |Wanted(result)|)
    ensures t.Valid() && Window(t, i, j, b, c) && IsChainOf(chain, leaves) && ShowsFrom(t, chain, b) && b + |chain| == c
  {
    hide TreeView.Valid, Leaves, Start, Entries, ServesFrom, Gathered, Has, InTree, InLeaf, Wanted, AnswersAt, IDs,
      IsChainOf, ShowsFrom;
    WantedIs(t, i, j, result);
    forall m | b <= m < c ensures Has(t, leaves, m) {
      if Entries(t) == [] {
        OneLeaf(t);
      } else {
        var x := WindowHit(t, i, j, b, c, m);
      }
    }
    chain := GatheredChain(t, leaves, b, c, c - b);
    GatheredIsChain(t, leaves, b, c, chain);
  }

  lemma OneLeaf(t: TreeView)
    requires t.Valid() && Entries(t) == []
    ensures |Leaves(t)| == 1
  {
    hide TreeView.Valid, Leaves, Start, Entries;
    StartEnds(t);
    StartsGrow(t, 0, |Leaves(t)|);
  }

  // ---- Scanning the leaf chain ----

  /** Appends the entries of a leaf up to the bound; stops at position k of the leaf. */
  method ScanLeaf(leaf: StoredPage, index: nat, upper: LocatorKey, entries0: seq<LocatorEntry>)
    returns (entries: seq<LocatorEntry>, complete: bool, ghost k: nat)
    requires index <= |leaf.page.keys|
    ensures index <= k <= |leaf.page.keys| && entries == entries0 + PageEntries(leaf.page)[index..k]
      && (complete <==> k < |leaf.page.keys|)
    ensures forall x :: index <= x < k ==> KeyLess(PageEntries(leaf.page)[x].key, upper)
    ensures complete ==> !KeyLess(PageEntries(leaf.page)[k].key, upper)
  {
    hide KeyLess;
    entries, k := entries0, index;
    var own := PageEntries(leaf.page);
    for i := index to |leaf.page.keys|
      invariant k == i && entries == entries0 + own[index..i]
      invariant forall x :: index <= x < i ==> KeyLess(own[x].key, upper)
    {
      if !KeyLess(leaf.page.keys[i], upper) { return entries, true, k; }
      assert own[index..i + 1] == own[index..i] + [own[i]];
      entries := entries + [own[i]];
      k := i + 1;
    }
    complete := false;
  }

  /** The scan starts at position i of the entries and is to end at position j, where the keys reach the bound. */
  ghost predicate ScanFor(store: PageStore, t: TreeView, root: StoredPage, start: StoredPage, a: nat, i: int, j: int,
                          upper: LocatorKey, startIndex: nat)
  {
    IsNth(store, t, root, start, a) && SplitsAt(Entries(t), upper, j) && 0 <= i <= j && i == Start(t, a) + startIndex
  }

  /** So far the scan has collected the entries up to some index of the m-th leaf. */
  ghost predicate ScanAt(store: PageStore, t: TreeView, root: StoredPage, leaf: StoredPage, m: nat, index: nat,
                         i: int, j: int, upper: LocatorKey, entries: seq<LocatorEntry>, visited: set<int>)
  {
    && IsNth(store, t, root, leaf, m) && SplitsAt(Entries(t), upper, j)
    && 0 <= i <= Start(t, m) + index <= j <= |Entries(t)|
    && entries == Entries(t)[i..Start(t, m) + index]
    && forall id :: id in visited ==> exists n :: 0 <= n < m && Leaves(t)[n] == id
  }

  method ScanLeaves(store: PageStore, ghost rank: map<int, nat>, start: StoredPage, startIndex: nat,
                    upper: LocatorKey, ghost t: TreeView, ghost root: StoredPage, ghost a: nat, ghost i: int,
                    ghost j: int)
    returns (r: Result<seq<LocatorEntry>>)
    requires Readable(store, rank) && IsRead(store, start) && startIndex <= |start.page.keys|
    ensures ScanFor(store, t, root, start, a, i, j, upper, startIndex) ==>
      i <= j <= |Entries(t)| && r == Ok(Entries(t)[i..j])
  {
    hide ScanFor, ScanAt, IsRead, Readable, PageEntries, KeyLess, Entries, Start;
    var leaf, entries := start, [];
    var index: nat := startIndex;
    var visited: set<int> := {};
    ghost var m := a;
    ghost var served := ScanFor(store, t, root, start, a, i, j, upper, startIndex);
    if served { ScanStart(store, t, root, start, a, i, j, upper, startIndex); }
    while true
      invariant IsRead(store, leaf) && index <= |leaf.page.keys|
      invariant served ==> ScanAt(store, t, root, leaf, m, index, i, j, upper, entries, visited)
      decreases store.Keys - visited
    {
      ReadIn(store, leaf);
      if served { NotVisited(store, t, root, leaf, m, index, i, j, upper, entries, visited); }
      if leaf.page.pageID in visited { return Err; }
      ghost var visited0, entries0 := visited, entries;
      visited := visited + {leaf.page.pageID};
      var complete;
      ghost var k;
      entries, complete, k := ScanLeaf(leaf, index, upper, entries);
      if served { ScanStep(store, t, root, leaf, m, index, i, j, upper, entries0, visited0, k); }
      if complete || leaf.page.next.None? { break; }
      if leaf.page.next.value !in store || !store[leaf.page.next.value].page.isLeaf { return Err; }
      PageIDRead(store, rank, leaf.page.next.value);
      leaf, index := store[leaf.page.next.value], 0;
      m := m + 1;
    }
    return Ok(entries);
  }

  lemma ReadIn(store: PageStore, page: StoredPage)
    requires IsRead(store, page)
    ensures page.page.pageID in store
  {}

  lemma ScanStart(store: PageStore, t: TreeView, root: StoredPage, start: StoredPage, a: nat, i: int, j: int,
                  upper: LocatorKey, startIndex: nat)
    requires ScanFor(store, t, root, start, a, i, j, upper, startIndex)
    ensures ScanAt(store, t, root, start, a, startIndex, i, j, upper, [], {})
  {
    hide ServesFrom, InTree, SplitsAt, Entries, Start, Leaves, TreeView.Valid;
    NthIs(store, t, root, start, a);
    InRange(t, upper, j);
  }

  lemma InRange(t: TreeView, bound: LocatorKey, j: int)
    requires t.Valid() && SplitsAt(Entries(t), bound, j)
    ensures 0 <= j <= |Entries(t)|
  {}

  lemma NotVisited(store: PageStore, t: TreeView, root: StoredPage, leaf: StoredPage, m: nat, index: nat, i: int,
                   j: int, upper: LocatorKey, entries: seq<LocatorEntry>, visited: set<int>)
    requires ScanAt(store, t, root, leaf, m, index, i, j, upper, entries, visited)
    ensures leaf.page.pageID !in visited
  {
    hide ServesFrom, SplitsAt, Entries, Start, Leaves, TreeView.Valid, InTree;
    NthIs(store, t, root, leaf, m);
    forall n | 0 <= n < m ensures Leaves(t)[n] != leaf.page.pageID {
      if Leaves(t)[n] == Leaves(t)[m] { LeafDistinct(t, n, m); }
    }
  }

  /** One leaf further: the scan is done, or the next leaf of the tree is next. */
  lemma ScanStep(store: PageStore, t: TreeView, root: StoredPage, leaf: StoredPage, m: nat, index: nat, i: int,
                 j: int, upper: LocatorKey, entries: seq<LocatorEntry>, visited: set<int>, k: nat)
    requires ScanAt(store, t, root, leaf, m, index, i, j, upper, entries, visited) && index <= k <= |leaf.page.keys|
    requires forall x :: index <= x < k ==> KeyLess(PageEntries(leaf.page)[x].key, upper)
    requires k < |leaf.page.keys| ==> !KeyLess(PageEntries(leaf.page)[k].key, upper)
    ensures t.Valid() && i <= j <= |Entries(t)|
    ensures var after := entries + PageEntries(leaf.page)[index..k];
      if k < |leaf.page.keys| || leaf.page.next.None? then after == Entries(t)[i..j]
      else
        && leaf.page.next.value in store && store[leaf.page.next.value].page.isLeaf
        && IsRead(store, store[leaf.page.next.value])
        && ScanAt(store, t, root, store[leaf.page.next.value], m + 1, 0, i, j, upper, after,
                  visited + {leaf.page.pageID})
  {
    hide ServesFrom, SplitsAt, Entries, Start, Leaves, TreeView.Valid, InTree, KeyLess, PageEntries, SpanAt;
    NthIs(store, t, root, leaf, m);
    var rest := EntriesOfLeaf(t, m);
    Collected(t, m, index, k, i, j, upper);
    NextStart(t, m);
    if k == |leaf.page.keys| {
      if m + 1 < |Leaves(t)| {
        Adjacent(t, m);
        NextRead(store, t, root, m + 1);
      } else {
        Ends(t);
        StartEnds(t);
      }
    }
  }

  lemma NextRead(store: PageStore, t: TreeView, root: StoredPage, m: nat)
    requires ServesFrom(store, t, root) && m < |Leaves(t)|
    ensures var p := Leaves(t)[m];
      p in store && store[p].page.isLeaf && IsRead(store, store[p]) && IsNth(store, t, root, store[p], m)
  {
    hide Shape, AllHashed, Traversal;
    LeafFacts(t, m);
  }

  /** The entries of a leaf below the bound continue those collected. */
  lemma Collected(t: TreeView, m: nat, index: nat, k: nat, i: int, j: int, upper: LocatorKey)
    requires t.Valid() && m < |Leaves(t)| && SplitsAt(Entries(t), upper, j) && index <= k <= |LeafAt(t, m).keys|
    requires 0 <= i <= Start(t, m) + index <= j
    requires forall x :: index <= x < k ==> KeyLess(PageEntries(LeafAt(t, m))[x].key, upper)
    requires k < |LeafAt(t, m).keys| ==> !KeyLess(PageEntries(LeafAt(t, m))[k].key, upper)
    ensures Start(t, m) + k <= j <= |Entries(t)|
    ensures Entries(t)[i..Start(t, m) + k] == Entries(t)[i..Start(t, m) + index] + PageEntries(LeafAt(t, m))[index..k]
    ensures k < |LeafAt(t, m).keys| ==> Start(t, m) + k == j
  {
    hide Entries, Start, Leaves, TreeView.Valid, KeyLess, PageEntries, LeafAt, SplitsAt;
    OwnEntries(t, m);
    CollectedIn(Entries(t), PageEntries(LeafAt(t, m)), Start(t, m), index, k, i, j, upper);
  }

  lemma OwnEntries(t: TreeView, m: nat)
    requires t.Valid() && m < |Leaves(t)|
    ensures var all, from, own := Entries(t), Start(t, m), PageEntries(LeafAt(t, m));
      from + |own| <= |all| && forall x :: 0 <= x < |own| ==> all[from + x] == own[x]
  {
    hide Entries, Start, Leaves, TreeView.Valid, PageEntries, LeafAt;
    var own := PageEntries(LeafAt(t, m));
    var rest := EntriesOfLeaf(t, m);
    forall x | 0 <= x < |own| ensures Entries(t)[Start(t, m) + x] == own[x] { EntryAtPosition(t, m, x); }
  }

  lemma CollectedIn(all: seq<LocatorEntry>, own: seq<LocatorEntry>, from: nat, index: nat, k: nat, i: int, j: int,
                    upper: LocatorKey)
    requires SplitsAt(all, upper, j) && index <= k <= |own| && from + |own| <= |all| && 0 <= i <= from + index <= j
    requires forall x :: 0 <= x < |own| ==> all[from + x] == own[x]
    requires forall x :: index <= x < k ==> KeyLess(own[x].key, upper)
    requires k < |own| ==> !KeyLess(own[k].key, upper)
    ensures from + k <= j <= |all| && all[i..from + k] == all[i..from + index] + own[index..k]
    ensures k < |own| ==> from + k == j
  {
    hide KeyLess;
    Continued(all, own, from, index, k, i);
    assert k > index ==> all[from + (k - 1)] == own[k - 1] && KeyLess(own[k - 1].key, upper);
    assert k < |own| ==> all[from + k] == own[k];
  }

  lemma Continued(all: seq<LocatorEntry>, own: seq<LocatorEntry>, from: nat, index: nat, k: nat, i: nat)
    requires index <= k <= |own| && from + |own| <= |all| && i <= from + index
    requires forall x :: 0 <= x < |own| ==> all[from + x] == own[x]
    ensures all[i..from + k] == all[i..from + index] + own[index..k]
  {
    assert all[from + index..from + k] == own[index..k];
  }

  // ---- The whole query ----

  /** The store holds the tree with this root page and hash. */
  ghost predicate Trusted(store: PageStore, t: TreeView, rootPageID: int, trustedRoot: Digest) {
    Serves(store, t) && t.root == rootPageID && t.rootHash == trustedRoot
  }

  /** Answers [lower, upper) from a page reader. Whatever the reader, only results that pass the verifier are returned;
      a reader that serves the trusted tree makes the query succeed with the exact answer. */
  method ResolveRangeWithReader(store: PageStore, ghost rank: map<int, nat>, rootPageID: int, trustedRoot: Digest,
                                lower: LocatorKey, upper: LocatorKey,
                                ghost t: TreeView) returns (r: Result<LocatorRangeResult>)
    requires Readable(store, rank)
    ensures r.Ok? ==> Accepts(lower, upper, r.value, trustedRoot)
    ensures Trusted(store, t, rootPageID, trustedRoot) ==>
      (r.Ok? <==> KeyLess(lower, upper)) && (r.Ok? ==> Answers(Entries(t), lower, upper, r.value))
  {
    hide Serves, OnWay, Readable, PathTo, IsNth, SplitsAt, Start, Entries, KeyLess, Accepts, Answers, Window,
      ShowsFrom, Covers, PageReadable, ScanFor, Ready, AnswersAt;
    if !KeyLess(lower, upper) { return Err; }
    ghost var served := Trusted(store, t, rootPageID, trustedRoot);
    if served { RootRead(store, t); }
    if rootPageID !in store { return Err; }
    var root := store[rootPageID];
    if root.page.hash != trustedRoot { return Err; }
    PageIDRead(store, rank, rootPageID);
    var found := FindLeaf(store, rank, root, lower, t);
    if found.Err? { return Err; }
    var (leaf, path) := found.value;
    var index := LowerBound(leaf.page.keys, lower);
    ghost var a, i := 0, 0;
    if served {
      a := NthFor(store, t, root, leaf, lower, index);
      i := Start(t, a) + index;
    }
    var predecessor := PredecessorEntry(store, rank, root, leaf, index, path, t, a);
    if predecessor.Err? { return Err; }
    var successor, j := LowerBoundEntry(store, rank, root, upper, t);
    if successor.Err? { return Err; }
    if served { ReadyToScan(store, t, root, leaf, a, i, j, index, lower, upper); }
    var entries := ScanLeaves(store, rank, leaf, index, upper, t, root, a, i, j);
    if entries.Err? { return Err; }
    var result := LocatorRangeResult(entries.value, predecessor.value, successor.value,
                                     LocatorRangeProof([], trustedRoot));
    if served { ReadyToProve(store, t, root, leaf, a, i, j, index, lower, upper, result); }
    var proof, b, c := BuildRangeProof(store, rank, root, leaf, path, result, trustedRoot, t, a, i, j);
    if proof.Err? { return Err; }
    result := result.(proof := proof.value);
    if served { Completed(t, proof.value, b, c, i, j, lower, upper, result); }
    var ok := VerifyLocatorRangeResult(lower, upper, result, trustedRoot);
    if !ok { return Err; }
    return Ok(result);
  }

  lemma PageIDRead(store: PageStore, rank: map<int, nat>, p: int)
    requires Readable(store, rank) && p in store
    ensures store[p].page.pageID == p && IsRead(store, store[p])
  {
    assert PageReadable(store, rank, p);
  }

  lemma SplitOrder(entries: seq<LocatorEntry>, lower: LocatorKey, upper: LocatorKey, i: int, j: int)
    requires SplitsAt(entries, lower, i) && SplitsAt(entries, upper, j) && KeyLess(lower, upper)
    ensures 0 <= i <= j <= |entries|
  {
    hide KeyLess;
    KeyOrder();
    if j < i { KeyTransitive(entries[j].key, lower, upper); }
  }

  lemma ReadyToScan(store: PageStore, t: TreeView, root: StoredPage, leaf: StoredPage, a: nat, i: int, j: int,
                    index: nat, lower: LocatorKey, upper: LocatorKey)
    requires IsNth(store, t, root, leaf, a) && t.Valid() && a < |Leaves(t)| && i == Start(t, a) + index
    requires index <= |leaf.page.keys|
    requires SplitsAt(Entries(t), lower, i) && SplitsAt(Entries(t), upper, j) && KeyLess(lower, upper)
    ensures ScanFor(store, t, root, leaf, a, i, j, upper, index) && 0 <= i <= j <= |Entries(t)|
  {
    hide IsNth, SplitsAt, Start, Entries, KeyLess, TreeView.Valid, Leaves;
    SplitOrder(Entries(t), lower, upper, i, j);
  }

  lemma ReadyToProve(store: PageStore, t: TreeView, root: StoredPage, leaf: StoredPage, a: nat, i: int, j: int,
                     index: nat, lower: LocatorKey, upper: LocatorKey, result: LocatorRangeResult)
    requires IsNth(store, t, root, leaf, a) && t.Valid() && a < |Leaves(t)| && i == Start(t, a) + index
    requires index <= |leaf.page.keys|
    requires 0 <= i <= j <= |Entries(t)|
    requires result.entries == Entries(t)[i..j] && result.predecessor == EntryBefore(Entries(t), i)
    requires result.successor == EntryFrom(Entries(t), j)
    ensures Ready(store, t, root, leaf, a, i, j, result, t.rootHash)
  {
    hide ServesFrom, InTree, SplitsAt, Start, Entries, KeyLess, TreeView.Valid, Leaves;
    NthIs(store, t, root, leaf, a);
    NextStart(t, a);
  }

  lemma Completed(t: TreeView, proof: LocatorRangeProof, b: nat, c: nat, i: int, j: int, lower: LocatorKey,
                  upper: LocatorKey, result: LocatorRangeResult)
    requires t.Valid() && Window(t, i, j, b, c) && ShowsFrom(t, proof.leaves, b) && b + |proof.leaves| == c
    requires proof.reconstructedRoot == t.rootHash
    requires SplitsAt(Entries(t), lower, i) && SplitsAt(Entries(t), upper, j) && KeyLess(lower, upper)
    requires 0 <= i <= j <= |Entries(t)| && result.proof == proof
    requires result.entries == Entries(t)[i..j] && result.predecessor == EntryBefore(Entries(t), i)
    requires result.successor == EntryFrom(Entries(t), j)
    ensures Accepts(lower, upper, result, t.rootHash) && Answers(Entries(t), lower, upper, result)
  {
    hide Window, ShowsFrom, SplitsAt, Start, Entries, KeyLess, TreeView.Valid, Leaves, Accepts;
    assert AnswersAt(Entries(t), i, j, result);
    WindowAccepted(t, proof.leaves, b, c, i, j, lower, upper, result);
  }
}
