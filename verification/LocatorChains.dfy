/** Leaf proofs of a served tree, and putting leaf proofs in chain order (internal/all/locator_range.go). */
module LocatorChains {
  import opened Hashing
  import opened LocatorPages
  import opened LocatorTracking
  import opened LocatorTrees
  import opened LocatorOrder
  import opened LocatorProofs
  import opened LocatorSoundness
  import opened LocatorPositions
  import opened LocatorQueries
  import TreeFold

  // ---- Leaf proofs ----

  function StepOf(step: PathStep): LocatorProofStep {
    LocatorProofStep(step.page.page.pageID, step.page.page.keys, step.childIndex, step.page.childHashes)
  }

  /** Copies a leaf and its path, turned to lead from the parent to the root. */
  function MakeLeafProof(leaf: StoredPage, path: seq<PathStep>): LocatorLeafProof {
    LocatorLeafProof(leaf.page.pageID, leaf.page.next, leaf.page.keys, leaf.page.values,
                     seq(|path|, i requires 0 <= i < |path| => StepOf(path[|path| - 1 - i])))
  }

  /** The proof shows the m-th leaf of the tree, reaches its root hash, and runs along the edge if the leaf is the first
      or the last. */
  ghost predicate Shows(t: TreeView, proof: LocatorLeafProof, m: nat)
    requires t.Valid()
  {
    && m < |Leaves(t)| && proof.pageID == Leaves(t)[m] && ShowsLeaf(t.pages, proof) && |proof.path| == t.height
    && Climbed(proof, |proof.path|) == Ok(t.rootHash)
    && (m == 0 ==> IsLeftmost(proof)) && (m == |Leaves(t)| - 1 ==> IsRightmost(proof))
  }

  lemma HashIs(t: TreeView, page: StoredPage)
    requires t.Valid() && InTree(t, page)
    ensures page.page.hash
      == H(if page.page.isLeaf then LeafPage(page.page.pageID, page.page.next, page.page.keys, page.page.values)
                                else InternalPage(page.page.keys, page.childHashes))
  {
    hide Shape;
    assert HashOK(t.pages, page.page.pageID);
  }

  /** Each step of the path computes the hash of the page it leads to. */
  lemma {:induction false} ProofClimbs(store: PageStore, t: TreeView, root: StoredPage, leaf: StoredPage,
                                       path: seq<PathStep>, n: nat)
    requires ServesFrom(store, t, root) && PathTo(store, root, path, leaf) && leaf.page.isLeaf && n <= |path|
    requires |leaf.page.values| == |leaf.page.keys|
    ensures Climbed(MakeLeafProof(leaf, path), n) == Ok(NodeAt(path, leaf, |path| - n).page.hash)
    decreases n
  {
    hide StoreMatches, InTree, PathTo, TreeView.Valid, IsRead;
    var proof := MakeLeafProof(leaf, path);
    PathInTree(store, t, root, path, leaf);
    if n == 0 {
      HashIs(t, leaf);
    } else {
      ProofClimbs(store, t, root, leaf, path, n - 1);
      var level := |path| - n;
      var step := path[level];
      PathNode(store, root, path, leaf, level);
      PathBounds(store, t, root, path, leaf, level);
      HashIs(t, step.page);
      assert proof.path[n - 1] == StepOf(step);
      var below := NodeAt(path, leaf, level + 1).page.hash;
      assert step.page.childHashes[step.childIndex := below] == step.page.childHashes;
    }
  }

  /** Below a page without a bound, the path has run along that edge. */
  lemma {:induction false} PathEdges(store: PageStore, t: TreeView, root: StoredPage, leaf: StoredPage,
                                     path: seq<PathStep>, n: nat)
    requires ServesFrom(store, t, root) && PathTo(store, root, path, leaf) && n <= |path|
    requires InTree(t, NodeAt(path, leaf, n))
    ensures SpanOf(t, NodeAt(path, leaf, n)).lo.None? ==> forall i :: 0 <= i < n ==> path[i].childIndex == 0
    ensures SpanOf(t, NodeAt(path, leaf, n)).hi.None? ==>
      forall i :: 0 <= i < n ==> path[i].page.childHashes != [] && path[i].childIndex == |path[i].page.childHashes| - 1
  {
    hide Serves, InTree, PathTo, IsRead, ReadChild;
    if n > 0 {
      PathBounds(store, t, root, path, leaf, n - 1);
      PathNode(store, root, path, leaf, n - 1);
      PathEdges(store, t, root, leaf, path, n - 1);
    }
  }

  lemma {:induction false} PathLevels(store: PageStore, t: TreeView, root: StoredPage, leaf: StoredPage,
                                      path: seq<PathStep>, n: nat)
    requires ServesFrom(store, t, root) && PathTo(store, root, path, leaf) && n <= |path|
    ensures InTree(t, NodeAt(path, leaf, n)) && SpanOf(t, NodeAt(path, leaf, n)).level == t.height - n
  {
    hide Serves, InTree, PathTo, IsRead, ReadChild;
    if n == 0 {
      RootRead(store, t);
      NodeRoot(store, root, path, leaf);
      assert IsRead(store, root);
      RootIs(store, t, root);
    } else {
      PathLevels(store, t, root, leaf, path, n - 1);
      PathBounds(store, t, root, path, leaf, n - 1);
      PathNode(store, root, path, leaf, n - 1);
      ChildLevel(store, t, path[n - 1].page, path[n - 1].childIndex);
    }
  }

  lemma RootIs(store: PageStore, t: TreeView, root: StoredPage)
    requires ServesFrom(store, t, root)
    ensures t.root in store && root == store[t.root]
  {}

  lemma ChildLevel(store: PageStore, t: TreeView, page: StoredPage, i: int)
    requires Serves(store, t) && InTree(t, page) && !page.page.isLeaf && |page.childHashes| == |page.page.children|
    requires ReadChild(store, page, i).Ok?
    ensures InTree(t, ReadChild(store, page, i).value)
    ensures SpanOf(t, ReadChild(store, page, i).value).level == SpanOf(t, page).level - 1
  {
    hide Shape, AllHashed;
    ChildBelow(t.pages, t.spans, t.root, t.height, page.page.pageID, i);
    PageIDOf(t, page.page.children[i]);
  }

  /** The proof made for a leaf that was found shows that leaf. */
  lemma ProofShows(store: PageStore, t: TreeView, root: StoredPage, leaf: StoredPage, path: seq<PathStep>, m: nat)
    requires IsNth(store, t, root, leaf, m) && PathTo(store, root, path, leaf)
    ensures t.Valid() && Shows(t, MakeLeafProof(leaf, path), m)
  {
    hide Serves, InTree, PathTo, IsRead, ReadChild, TreeView.Valid, Leaves, SpanAt, Climbed, ShowsLeaf, IsLeftmost,
      IsRightmost;
    NthIs(store, t, root, leaf, m);
    LeafFacts(t, m);
    var proof, k := MakeLeafProof(leaf, path), |path|;
    ProofClimbs(store, t, root, leaf, path, k);
    RootRead(store, t);
    RootIs(store, t, root);
    NodeRoot(store, root, path, leaf);
    PathLevels(store, t, root, leaf, path, k);
    PathEdges(store, t, root, leaf, path, k);
    Ends(t);
    SpanIs(t, m);
    Copied(t, leaf, path);
    if m == 0 { TurnedLeft(leaf, path); }
    if m == |Leaves(t)| - 1 { TurnedRight(leaf, path); }
  }

  lemma Copied(t: TreeView, leaf: StoredPage, path: seq<PathStep>)
    requires InTree(t, leaf) && leaf.page.isLeaf
    ensures ShowsLeaf(t.pages, MakeLeafProof(leaf, path))
  {}

  lemma TurnedLeft(leaf: StoredPage, path: seq<PathStep>)
    requires forall i :: 0 <= i < |path| ==> path[i].childIndex == 0
    ensures IsLeftmost(MakeLeafProof(leaf, path))
  {
    var steps := MakeLeafProof(leaf, path).path;
    forall i | 0 <= i < |steps| ensures steps[i].childIndex == 0 {
      assert steps[i] == StepOf(path[|path| - 1 - i]);
    }
  }

  lemma TurnedRight(leaf: StoredPage, path: seq<PathStep>)
    requires leaf.page.next.None?
    requires forall i :: 0 <= i < |path| ==>
      path[i].page.childHashes != [] && path[i].childIndex == |path[i].page.childHashes| - 1
    ensures IsRightmost(MakeLeafProof(leaf, path))
  {
    var steps := MakeLeafProof(leaf, path).path;
    forall i | 0 <= i < |steps|
      ensures steps[i].childHashes != [] && steps[i].childIndex == |steps[i].childHashes| - 1 {
      assert steps[i] == StepOf(path[|path| - 1 - i]);
    }
  }

  // ---- Chain order ----

  function IDs(leaves: seq<LocatorLeafProof>): set<int> {
    set leaf | leaf in leaves :: leaf.pageID
  }

  ghost predicate Distinct(leaves: seq<LocatorLeafProof>) {
    forall i, j :: 0 <= i < j < |leaves| ==> leaves[i].pageID != leaves[j].pageID
  }

  predicate Linked(a: LocatorLeafProof, b: LocatorLeafProof) {
    a.nextPageID == Some(b.pageID)
  }

  /** The leaf proofs rearranged so that each leads to the next, and the last to none of them. */
  ghost predicate IsChainOf(chain: seq<LocatorLeafProof>, leaves: seq<LocatorLeafProof>) {
    && chain != [] && Distinct(chain) && Distinct(leaves) && (forall leaf :: leaf in chain <==> leaf in leaves)
    && (forall i :: 0 <= i < |chain| - 1 ==> Linked(chain[i], chain[i + 1]))
    && EndsAt(chain[|chain| - 1], IDs(leaves))
  }

  predicate EndsAt(leaf: LocatorLeafProof, ids: set<int>) {
    leaf.nextPageID.Some? ==> leaf.nextPageID.value !in ids
  }

  /** Every leaf proof under its identifier. */
  ghost predicate Indexed(leaves: seq<LocatorLeafProof>, n: nat, byID: map<int, LocatorLeafProof>)
    requires n <= |leaves|
  {
    && (forall i :: 0 <= i < n ==> leaves[i].pageID in byID && byID[leaves[i].pageID] == leaves[i])
    && forall id :: id in byID ==> byID[id].pageID == id && byID[id] in leaves[..n]
  }

  method OrderLeafProofs(leaves: seq<LocatorLeafProof>,
                         ghost chain: seq<LocatorLeafProof>) returns (r: Result<seq<LocatorLeafProof>>)
    ensures r.Ok? ==> IsChainOf(r.value, leaves)
    ensures IsChainOf(chain, leaves) ==> r == Ok(chain)
  {
    hide IsChainOf, Indexed, IDs, IsPath;
    var indexed := IndexLeafProofs(leaves, chain);
    if indexed.Err? { return Err; }
    var byID := indexed.value;
    var incoming := LinkedTo(leaves, byID);
    var head := FindHead(leaves, incoming, byID, chain);
    if head.Err? { return Err; }
    if IsChainOf(chain, leaves) { ChainIsPath(leaves, byID, chain); }
    HeadIndexed(leaves, byID, head.value);
    var ordered := FollowChain(byID, head.value, chain);
    if ordered.Err? { return Err; }
    if |ordered.value| != |leaves| { return Err; }
    PathIsChain(leaves, byID, head.value, ordered.value);
    return ordered;
  }

  method IndexLeafProofs(leaves: seq<LocatorLeafProof>,
                         ghost chain: seq<LocatorLeafProof>) returns (r: Result<map<int, LocatorLeafProof>>)
    ensures r.Ok? ==> Indexed(leaves, |leaves|, r.value) && Distinct(leaves)
    ensures r.Err? ==> !IsChainOf(chain, leaves)
  {
    hide IDs;
    var byID: map<int, LocatorLeafProof> := map[];
    for i := 0 to |leaves|
      invariant Indexed(leaves, i, byID) && Distinct(leaves[..i])
    {
      var leaf := leaves[i];
      assert leaves[..i + 1] == leaves[..i] + [leaf];
      if leaf.pageID in byID { return Err; }
      byID := byID[leaf.pageID := leaf];
    }
    assert leaves[..|leaves|] == leaves;
    return Ok(byID);
  }

  /** The identifiers some leaf leads to. */
  ghost predicate IsIncoming(leaves: seq<LocatorLeafProof>, n: nat, byID: map<int, LocatorLeafProof>,
                             incoming: set<int>)
    requires n <= |leaves|
  {
    && (forall j :: 0 <= j < n && leaves[j].nextPageID.Some? && leaves[j].nextPageID.value in byID ==>
        leaves[j].nextPageID.value in incoming)
    && forall id :: id in incoming ==> id in byID && exists j :: 0 <= j < n && leaves[j].nextPageID == Some(id)
  }

  method LinkedTo(leaves: seq<LocatorLeafProof>, byID: map<int, LocatorLeafProof>) returns (incoming: set<int>)
    ensures IsIncoming(leaves, |leaves|, byID, incoming)
  {
    incoming := {};
    for i := 0 to |leaves|
      invariant IsIncoming(leaves, i, byID, incoming)
    {
      var next := leaves[i].nextPageID;
      if next.Some? && next.value in byID { incoming := incoming + {next.value}; }
    }
  }

  /** In a chain, only the first is not led to. */
  lemma HeadOf(leaves: seq<LocatorLeafProof>, incoming: set<int>, byID: map<int, LocatorLeafProof>,
               chain: seq<LocatorLeafProof>)
    requires IsIncoming(leaves, |leaves|, byID, incoming) && Indexed(leaves, |leaves|, byID) && IsChainOf(chain, leaves)
    ensures chain != [] && Distinct(leaves) && chain[0] in leaves
    ensures forall leaf :: leaf in leaves ==> (leaf.pageID in incoming <==> leaf != chain[0])
  {
    hide Indexed, IsIncoming;
    forall leaf | leaf in leaves ensures leaf.pageID in incoming <==> leaf != chain[0] {
      var i :| 0 <= i < |chain| && chain[i] == leaf;
      if i > 0 {
        Incoming(leaves, incoming, byID, chain, i);
      } else {
        FirstNotIncoming(leaves, incoming, byID, chain);
      }
    }
    assert chain[0] in chain;
  }

  lemma Incoming(leaves: seq<LocatorLeafProof>, incoming: set<int>, byID: map<int, LocatorLeafProof>,
                 chain: seq<LocatorLeafProof>, i: nat)
    requires IsIncoming(leaves, |leaves|, byID, incoming) && Indexed(leaves, |leaves|, byID)
    requires IsChainOf(chain, leaves) && 0 < i < |chain|
    ensures chain[i].pageID in incoming && chain[i] != chain[0]
  {
    hide IDs;
    assert Linked(chain[i - 1], chain[i - 1 + 1]);
    assert chain[i - 1] in chain && chain[i] in chain;
    var j :| 0 <= j < |leaves| && leaves[j] == chain[i - 1];
    var k :| 0 <= k < |leaves| && leaves[k] == chain[i];
  }

  lemma FirstNotIncoming(leaves: seq<LocatorLeafProof>, incoming: set<int>, byID: map<int, LocatorLeafProof>,
                         chain: seq<LocatorLeafProof>)
    requires IsIncoming(leaves, |leaves|, byID, incoming) && IsChainOf(chain, leaves)
    ensures chain[0].pageID !in incoming
  {
    var id := chain[0].pageID;
    forall j | 0 <= j < |leaves| ensures leaves[j].nextPageID != Some(id) {
      assert leaves[j] in leaves;
      var x :| 0 <= x < |chain| && chain[x] == leaves[j];
      if x < |chain| - 1 {
        assert Linked(chain[x], chain[x + 1]);
      } else {
        assert chain[0] in chain;
        assert id in IDs(leaves);
      }
    }
  }

  lemma OneHead(leaves: seq<LocatorLeafProof>, incoming: set<int>, byID: map<int, LocatorLeafProof>,
                chain: seq<LocatorLeafProof>, h: nat, i: nat)
    requires IsIncoming(leaves, |leaves|, byID, incoming) && Indexed(leaves, |leaves|, byID)
    requires h < i < |leaves| && leaves[h].pageID !in incoming && leaves[i].pageID !in incoming
    ensures !IsChainOf(chain, leaves)
  {
    hide Indexed, IsIncoming, IsChainOf;
    assert leaves[h] in leaves && leaves[i] in leaves;
    if IsChainOf(chain, leaves) { HeadOf(leaves, incoming, byID, chain); }
  }

  /** The one leaf that no other leads to. */
  method FindHead(leaves: seq<LocatorLeafProof>, incoming: set<int>, ghost byID: map<int, LocatorLeafProof>,
                  ghost chain: seq<LocatorLeafProof>)
    returns (r: Result<LocatorLeafProof>)
    requires IsIncoming(leaves, |leaves|, byID, incoming) && Indexed(leaves, |leaves|, byID)
    ensures r.Ok? ==> r.value in leaves
    ensures IsChainOf(chain, leaves) ==> chain != [] && r == Ok(chain[0])
  {
    hide IsChainOf, Indexed, IsIncoming;
    if IsChainOf(chain, leaves) { HeadOf(leaves, incoming, byID, chain); }
    var head: Option<LocatorLeafProof> := None;
    ghost var h := 0;
    for i := 0 to |leaves|
      invariant head.Some? ==> h < i && leaves[h] == head.value && head.value.pageID !in incoming
      invariant head.None? ==> forall j :: 0 <= j < i ==> leaves[j].pageID in incoming
    {
      if leaves[i].pageID in incoming { continue; }
      if head.Some? {
        OneHead(leaves, incoming, byID, chain, h, i);
        return Err;
      }
      head, h := Some(leaves[i]), i;
    }
    if head.None? { return Err; }
    return Ok(head.value);
  }

  ghost predicate Keyed(byID: map<int, LocatorLeafProof>) {
    forall id :: id in byID ==> byID[id].pageID == id
  }

  lemma HeadIndexed(leaves: seq<LocatorLeafProof>, byID: map<int, LocatorLeafProof>, head: LocatorLeafProof)
    requires Indexed(leaves, |leaves|, byID) && head in leaves
    ensures head.pageID in byID && byID[head.pageID] == head && Keyed(byID)
  {}

  /** The sequence follows the links from the head until they leave the index. */
  ghost predicate IsPath(byID: map<int, LocatorLeafProof>, head: LocatorLeafProof, s: seq<LocatorLeafProof>) {
    && s != [] && s[0] == head && Distinct(s)
    && (forall leaf :: leaf in s ==> leaf.pageID in byID && byID[leaf.pageID] == leaf)
    && (forall i :: 0 <= i < |s| - 1 ==> Linked(s[i], s[i + 1])) && EndsAt(s[|s| - 1], byID.Keys)
  }

  /** The steps taken so far, and the leaf to take next. */
  ghost predicate Following(byID: map<int, LocatorLeafProof>, head: LocatorLeafProof, s: seq<LocatorLeafProof>,
                            visited: set<int>, curr: LocatorLeafProof)
  {
    && curr.pageID in byID && byID[curr.pageID] == curr && (s + [curr])[0] == head && visited == IDs(s) && Distinct(s)
    && (forall leaf :: leaf in s ==> leaf.pageID in byID && byID[leaf.pageID] == leaf)
    && forall i :: 0 <= i < |s| ==> Linked(s[i], (s + [curr])[i + 1])
  }

  /** A given path has been followed so far. */
  ghost predicate Along(chain: seq<LocatorLeafProof>, s: seq<LocatorLeafProof>, curr: LocatorLeafProof) {
    |s| < |chain| && s + [curr] == chain[..|s| + 1]
  }

  method FollowChain(byID: map<int, LocatorLeafProof>, head: LocatorLeafProof, ghost chain: seq<LocatorLeafProof>)
    returns (r: Result<seq<LocatorLeafProof>>)
    requires Keyed(byID) && head.pageID in byID && byID[head.pageID] == head
    ensures r.Ok? ==> IsPath(byID, head, r.value)
    ensures IsPath(byID, head, chain) ==> r == Ok(chain)
  {
    hide IsPath, Following, Along;
    var ordered, visited, curr := [], {}, head;
    StartFollowing(byID, head, chain);
    while true
      invariant Following(byID, head, ordered, visited, curr)
      invariant IsPath(byID, head, chain) ==> Along(chain, ordered, curr)
      decreases byID.Keys - visited
    {
      FollowNext(byID, head, ordered, visited, curr, chain);
      if curr.pageID in visited { return Err; }
      visited := visited + {curr.pageID};
      ordered := ordered + [curr];
      if curr.nextPageID.None? || curr.nextPageID.value !in byID { break; }
      curr := byID[curr.nextPageID.value];
    }
    return Ok(ordered);
  }

  lemma StartFollowing(byID: map<int, LocatorLeafProof>, head: LocatorLeafProof, chain: seq<LocatorLeafProof>)
    requires head.pageID in byID && byID[head.pageID] == head
    ensures Following(byID, head, [], {}, head)
    ensures IsPath(byID, head, chain) ==> Along(chain, [], head)
  {}

  lemma FollowNext(byID: map<int, LocatorLeafProof>, head: LocatorLeafProof, s: seq<LocatorLeafProof>,
                   visited: set<int>, curr: LocatorLeafProof, chain: seq<LocatorLeafProof>)
    requires Keyed(byID) && Following(byID, head, s, visited, curr)
    requires IsPath(byID, head, chain) ==> Along(chain, s, curr)
    ensures curr.pageID in byID && (IsPath(byID, head, chain) ==> curr.pageID !in visited)
    ensures curr.pageID !in visited ==>
      if curr.nextPageID.None? || curr.nextPageID.value !in byID then
        IsPath(byID, head, s + [curr]) && (IsPath(byID, head, chain) ==> s + [curr] == chain)
      else
        Following(byID, head, s + [curr], visited + {curr.pageID}, byID[curr.nextPageID.value])
        && (IsPath(byID, head, chain) ==> Along(chain, s + [curr], byID[curr.nextPageID.value]))
  {
    hide IsPath, Along, Following;
    if IsPath(byID, head, chain) { AlongNext(byID, head, s, visited, curr, chain); }
    if curr.pageID !in visited {
      if curr.nextPageID.None? || curr.nextPageID.value !in byID { FollowEnd(byID, head, s, visited, curr); }
      else {
        var id := curr.nextPageID.value;
        assert byID[id].pageID == id;
        FollowStep(byID, head, s, visited, curr, byID[id]);
      }
    }
    assert curr.pageID in byID by { FollowIn(byID, head, s, visited, curr); }
  }

  lemma FollowIn(byID: map<int, LocatorLeafProof>, head: LocatorLeafProof, s: seq<LocatorLeafProof>,
                 visited: set<int>, curr: LocatorLeafProof)
    requires Following(byID, head, s, visited, curr)
    ensures curr.pageID in byID
  {}

  lemma AlongNext(byID: map<int, LocatorLeafProof>, head: LocatorLeafProof, s: seq<LocatorLeafProof>,
                  visited: set<int>, curr: LocatorLeafProof, chain: seq<LocatorLeafProof>)
    requires Keyed(byID) && Following(byID, head, s, visited, curr) && IsPath(byID, head, chain)
    requires Along(chain, s, curr)
    ensures curr.pageID !in visited
    ensures curr.nextPageID.None? || curr.nextPageID.value !in byID ==> s + [curr] == chain
    ensures curr.nextPageID.Some? && curr.nextPageID.value in byID ==>
      Along(chain, s + [curr], byID[curr.nextPageID.value])
  {
    var n := |s|;
    forall i | 0 <= i < n ensures s[i] == chain[i] { assert (s + [curr])[i] == chain[..n + 1][i]; }
    assert (s + [curr])[n] == chain[..n + 1][n];
    if n == |chain| - 1 {
      assert chain[..n + 1] == chain;
    } else {
      assert Linked(chain[n], chain[n + 1]);
      assert chain[n + 1] in chain;
      assert chain[..n + 2] == chain[..n + 1] + [chain[n + 1]];
    }
  }

  lemma FollowEnd(byID: map<int, LocatorLeafProof>, head: LocatorLeafProof, s: seq<LocatorLeafProof>,
                  visited: set<int>, curr: LocatorLeafProof)
    requires Following(byID, head, s, visited, curr) && curr.pageID !in visited && EndsAt(curr, byID.Keys)
    ensures IsPath(byID, head, s + [curr])
  {
    LongerDistinct(s, curr);
  }

  lemma LongerDistinct(s: seq<LocatorLeafProof>, curr: LocatorLeafProof)
    requires Distinct(s) && curr.pageID !in IDs(s)
    ensures Distinct(s + [curr]) && IDs(s + [curr]) == IDs(s) + {curr.pageID}
  {
    assert forall i :: 0 <= i < |s| ==> s[i] in s && s[i].pageID in IDs(s);
    forall id | id in IDs(s) + {curr.pageID} ensures id in IDs(s + [curr]) {
      if id != curr.pageID {
        var leaf :| leaf in s && leaf.pageID == id;
        assert leaf in s + [curr];
      } else {
        assert curr in s + [curr];
      }
    }
  }

  lemma FollowStep(byID: map<int, LocatorLeafProof>, head: LocatorLeafProof, s: seq<LocatorLeafProof>,
                   visited: set<int>, curr: LocatorLeafProof, next: LocatorLeafProof)
    requires Following(byID, head, s, visited, curr) && curr.pageID !in visited
    requires Linked(curr, next) && next.pageID in byID && byID[next.pageID] == next
    ensures Following(byID, head, s + [curr], visited + {curr.pageID}, next)
  {
    hide IDs, Distinct, Linked;
    LongerDistinct(s, curr);
    var longer := s + [curr];
    var all := longer + [next];
    assert forall i :: 0 <= i < |longer| ==> all[i] == longer[i];
    forall i | 0 <= i < |longer| ensures Linked(longer[i], all[i + 1]) {
      assert i < |s| ==> Linked(s[i], longer[i + 1]);
    }
  }

  // ---- A chain of some leaves is a path through all of them ----

  lemma {:induction false} IDCount(s: seq<LocatorLeafProof>)
    requires Distinct(s)
    ensures |IDs(s)| == |s|
  {
    hide IDs;
    if s == [] {
      assert IDs([]) == {} by { NoIDs(); }
    } else {
      var rest, last := s[..|s| - 1], s[|s| - 1];
      assert forall i :: 0 <= i < |rest| ==> rest[i] == s[i];
      IDCount(rest);
      assert rest + [last] == s;
      NewID(rest, last);
      LongerDistinct(rest, last);
    }
  }

  lemma NoIDs()
    ensures IDs([]) == {}
  {}

  lemma NewID(rest: seq<LocatorLeafProof>, last: LocatorLeafProof)
    requires forall i :: 0 <= i < |rest| ==> rest[i].pageID != last.pageID
    ensures last.pageID !in IDs(rest)
  {}

  lemma SameIDs(a: seq<LocatorLeafProof>, b: seq<LocatorLeafProof>)
    requires forall leaf :: leaf in a <==> leaf in b
    ensures IDs(a) == IDs(b)
  {}

  lemma IndexIDs(leaves: seq<LocatorLeafProof>, byID: map<int, LocatorLeafProof>)
    requires Indexed(leaves, |leaves|, byID)
    ensures byID.Keys == IDs(leaves)
      && forall leaf :: leaf in leaves <==> leaf.pageID in byID && byID[leaf.pageID] == leaf
  {
    assert leaves[..|leaves|] == leaves;
    forall leaf | leaf in leaves ensures leaf.pageID in byID && byID[leaf.pageID] == leaf {
      var i :| 0 <= i < |leaves| && leaves[i] == leaf;
    }
    forall id | id in byID ensures id in IDs(leaves) {
      assert byID[id] in leaves;
    }
  }

  lemma ChainIsPath(leaves: seq<LocatorLeafProof>, byID: map<int, LocatorLeafProof>, chain: seq<LocatorLeafProof>)
    requires Indexed(leaves, |leaves|, byID) && IsChainOf(chain, leaves)
    ensures chain != [] && IsPath(byID, chain[0], chain) && |chain| == |leaves|
  {
    hide Indexed, IDs, Distinct;
    IndexIDs(leaves, byID);
    SameIDs(chain, leaves);
    IDCount(chain);
    IDCount(leaves);
  }

  lemma PathIsChain(leaves: seq<LocatorLeafProof>, byID: map<int, LocatorLeafProof>, head: LocatorLeafProof,
                    s: seq<LocatorLeafProof>)
    requires Indexed(leaves, |leaves|, byID) && Distinct(leaves) && IsPath(byID, head, s) && |s| == |leaves|
    ensures IsChainOf(s, leaves)
  {
    hide Indexed, Distinct;
    IndexIDs(leaves, byID);
    IDCount(s);
    IDCount(leaves);
    assert IDs(s) <= IDs(leaves);
    TreeFold.SubsetOfSameSize(IDs(s), IDs(leaves));
    forall leaf | leaf in leaves ensures leaf in s {
      assert leaf.pageID in IDs(s);
      var other :| other in s && other.pageID == leaf.pageID;
    }
  }
}
