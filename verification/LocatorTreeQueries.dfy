/** Logical queries against the in-memory locator tree (internal/all/locator_range.go). */
module LocatorTreeQueries {
  import opened Hashing
  import opened ProofTypes
  import opened LocatorKeys
  import opened LocatorPages
  import opened LocatorTrees
  import opened LocatorOrder
  import opened LocatorProofs
  import opened LocatorSoundness
  import opened LocatorPositions
  import opened LocatorQueries
  import opened LocatorResolve

  /** Four exact matches and a half-open time interval. */
  datatype LocatorQuery = LocatorQuery(tenantID: Text, serviceID: Text, logType: Text, regionID: Text, startTime: int,
                                       endTime: int)

  function Zeros(n: nat): Text {
    if n == 0 then [] else [0] + Zeros(n - 1)
  }

  /** The key range of a query; a zero log identifier sorts before all others. */
  function Bounds(query: LocatorQuery): Result<(LocatorKey, LocatorKey)> {
    if query.tenantID == [] || query.serviceID == [] || query.logType == [] || query.regionID == [] then Err
    else if query.startTime == ZERO_TIME || query.endTime == ZERO_TIME then Err
    else if query.startTime >= query.endTime then Err
    else
      var key := LocatorKey(query.tenantID, query.serviceID, query.logType, query.regionID, query.startTime, Zeros(16));
      Ok((key, key.(eventTime := query.endTime)))
  }

  /** The record is one the query asks for. */
  predicate Matches(query: LocatorQuery, key: LocatorKey) {
    && key.tenantID == query.tenantID && key.serviceID == query.serviceID && key.logType == query.logType
    && key.regionID == query.regionID
    && query.startTime <= key.eventTime < query.endTime
  }

  lemma {:induction false} ZeroIsLeast(id: Text)
    ensures !TextLess(id, Zeros(|id|))
  {
    if id != [] {
      assert Zeros(|id|)[1..] == Zeros(|id| - 1);
      ZeroIsLeast(id[1..]);
    }
  }

  /** The key range of a query holds exactly the keys the query asks for. */
  lemma BoundsSelect(query: LocatorQuery, key: LocatorKey)
    requires Bounds(query).Ok? && |key.logID| == 16
    ensures var (lower, upper) := Bounds(query).value;
      KeyLess(lower, upper) && (KeyAtMost(lower, key) && KeyLess(key, upper) <==> Matches(query, key))
  {
    hide TextLess;
    TextOrder();
    ZeroIsLeast(key.logID);
  }

  /** The pages of a tree as a reader sees them. */
  function MemoryReader(pages: Pages): PageStore {
    map p | p in pages :: Stored(pages, pages[p])
  }

  /** The levels of the pages show that children never lead back to an ancestor. */
  lemma TreeReadable(t: TreeView) returns (rank: map<int, nat>)
    requires t.Valid()
    ensures Readable(MemoryReader(t.pages), rank) && Serves(MemoryReader(t.pages), t)
  {
    hide Shape, AllHashed, PageReadable;
    ShapeDomainOf(t);
    rank := map p | p in t.pages :: if t.spans[p].level >= 0 then t.spans[p].level else 0;
    var store := MemoryReader(t.pages);
    forall p | p in store ensures PageReadable(store, rank, p) {
      PageIsReadable(t, rank, p);
    }
  }

  lemma ShapeDomainOf(t: TreeView)
    requires t.Valid()
    ensures forall p :: p in t.pages ==> p in t.spans && t.spans[p].level >= 0
  {
    hide KeysSorted, Covers, StrictlyIn, NextOK, Placed, AllHashed;
  }

  lemma PageIsReadable(t: TreeView, rank: map<int, nat>, p: int)
    requires t.Valid() && p in t.pages
      && forall x :: x in t.pages ==> x in t.spans && x in rank && rank[x] == t.spans[x].level
    ensures p in MemoryReader(t.pages) && PageReadable(MemoryReader(t.pages), rank, p)
  {
    hide Shape, AllHashed;
    PageIDOf(t, p);
    if t.pages[p].isLeaf {
      LeafValues(t.pages, t.spans, t.root, t.height, p);
      LeafHasNoChildren(t, p);
    } else {
      forall c | c in t.pages[p].children ensures c in t.pages && rank[c] < rank[p] {
        var i :| 0 <= i < |t.pages[p].children| && t.pages[p].children[i] == c;
        ChildBelow(t.pages, t.spans, t.root, t.height, p, i);
      }
    }
  }

  lemma LeafHasNoChildren(t: TreeView, p: int)
    requires t.Valid() && p in t.pages && t.pages[p].isLeaf
    ensures t.pages[p].children == []
  {
    hide AllHashed, Placed, KeysSorted, Covers, NextOK;
    hide Shape;
    PageAt(t.pages, t.spans, t.root, t.height, p);
  }

  /** Every range of an in-memory tree is answered with exactly the records in it and their neighbours,
      and with a proof the verifier accepts. */
  method ResolveRange(tree: LocatorTree, lower: LocatorKey, upper: LocatorKey) returns (r: Result<LocatorRangeResult>)
    requires tree.Valid()
    ensures r.Ok? <==> KeyLess(lower, upper)
    ensures r.Ok? ==>
      Accepts(lower, upper, r.value, tree.rootHash) && RangeOf(tree.contents, lower, upper, r.value.entries)
    ensures r.Ok? ==>
      IsPredecessor(tree.contents, lower, r.value.predecessor) && IsSuccessor(tree.contents, upper, r.value.successor)
  {
    hide IsTree, IsContents, Accepts, RangeOf, IsPredecessor, IsSuccessor, KeyLess, Serves, Readable, Answers;
    ghost var t := TreeView(tree.pages, tree.spans, tree.rootPageID, tree.rootHash, tree.nextPageID, tree.height,
                            tree.order);
    ghost var rank := TreeReadable(t);
    r := ResolveRangeWithReader(MemoryReader(tree.pages), rank, tree.rootPageID, tree.rootHash, lower, upper, t);
    if r.Ok? { AnswerIsRange(t, tree.contents, lower, upper, r.value); }
  }

  lemma AnswerIsRange(t: TreeView, contents: Contents, lower: LocatorKey, upper: LocatorKey, result: LocatorRangeResult)
    requires t.Valid() && IsContents(t.pages, contents) && Answers(Entries(t), lower, upper, result)
    requires KeyLess(lower, upper)
    ensures RangeOf(contents, lower, upper, result.entries)
    ensures IsPredecessor(contents, lower, result.predecessor) && IsSuccessor(contents, upper, result.successor)
  {
    hide Shape, AllHashed, IsContents, RangeOf, IsPredecessor, IsSuccessor, KeyLess, Answers, TreeEntries;
    TreeListing(t.pages, t.spans, t.root, t.height, contents);
    TreeSorted(t.pages, t.spans, t.root, t.height);
    AnswersInContents(Entries(t), contents, lower, upper, result);
  }

  /** A valid query is answered with exactly the matching records, with their neighbours in the tree, and with a proof
      that is accepted for the key range of the query. */
  method Resolve(tree: LocatorTree, query: LocatorQuery) returns (r: Result<LocatorRangeResult>)
    requires tree.Valid() && forall k :: k in tree.contents ==> |k.logID| == 16
    ensures r.Ok? <==>
      && query.tenantID != [] && query.serviceID != [] && query.logType != [] && query.regionID != []
      && query.startTime != ZERO_TIME && query.endTime != ZERO_TIME && query.startTime < query.endTime
    ensures r.Ok? <==> Bounds(query).Ok?
    ensures r.Ok? ==>
      var (lower, upper) := Bounds(query).value;
      && IsPredecessor(tree.contents, lower, r.value.predecessor)
      && IsSuccessor(tree.contents, upper, r.value.successor)
    ensures r.Ok? ==> QueryAnswer(tree.contents, query, r.value.entries) && AcceptsQuery(query, r.value, tree.rootHash)
  {
    hide IsTree, IsContents, Accepts, IsPredecessor, IsSuccessor, KeyLess, Lists, EntriesSorted, Bounds, Matches;
    var bounds := Bounds(query);
    BoundsFail(query);
    if bounds.Err? { return Err; }
    var (lower, upper) := bounds.value;
    BoundsOrdered(query);
    r := ResolveRange(tree, lower, upper);
    forall k | k in tree.contents ensures KeyAtMost(lower, k) && KeyLess(k, upper) <==> Matches(query, k) {
      BoundsSelect(query, k);
    }
  }

  /** Exactly the matching records of a tree, in order. */
  ghost predicate QueryAnswer(contents: Contents, query: LocatorQuery, entries: seq<LocatorEntry>) {
    && EntriesSorted(entries)
    && forall k, v :: Lists(entries, k, v) <==> k in contents && contents[k] == v && Matches(query, k)
  }

  /** Accepts exactly the results of valid queries that are accepted for the key range of the query. */
  method VerifyLocatorQueryResult(query: LocatorQuery, result: LocatorRangeResult, trustedRoot: Digest)
    returns (ok: bool)
    ensures ok <==> AcceptsQuery(query, result, trustedRoot)
  {
    hide Accepts, Bounds;
    var bounds := Bounds(query);
    if bounds.Err? { return false; }
    var (lower, upper) := bounds.value;
    ok := VerifyLocatorRangeResult(lower, upper, result, trustedRoot);
  }

  ghost predicate AcceptsQuery(query: LocatorQuery, result: LocatorRangeResult, trustedRoot: Digest) {
    Bounds(query).Ok? && Accepts(Bounds(query).value.0, Bounds(query).value.1, result, trustedRoot)
  }

  /** An accepted result holds exactly the records of the tree that match the query, with the nearest records on either
      side of its key range, or there is a hash collision. */
  lemma QueryResultsAreSound(t: TreeView, contents: Contents, query: LocatorQuery, result: LocatorRangeResult)
    requires t.Valid() && IsContents(t.pages, contents) && forall k :: k in contents ==> |k.logID| == 16
    requires AcceptsQuery(query, result, t.rootHash)
    ensures
      || Collide(ProofContents(result.proof.leaves), TreePreimages(t.pages))
      || (QueryAnswer(contents, query, result.entries)
          && IsPredecessor(contents, Bounds(query).value.0, result.predecessor)
          && IsSuccessor(contents, Bounds(query).value.1, result.successor))
  {
    hide Shape, AllHashed, IsContents, Accepts, IsPredecessor, IsSuccessor, KeyLess, Lists, EntriesSorted, Bounds,
      Matches, Collide, ProofContents, TreePreimages;
    if !Collide(ProofContents(result.proof.leaves), TreePreimages(t.pages)) {
      var (lower, upper) := Bounds(query).value;
      AcceptedIsTheRange(t.pages, t.spans, t.root, t.rootHash, t.next, t.height, t.order, contents, lower, upper,
                         result);
      forall k | k in contents ensures KeyAtMost(lower, k) && KeyLess(k, upper) <==> Matches(query, k) {
        BoundsSelect(query, k);
      }
    }
  }

  lemma BoundsFail(query: LocatorQuery)
    ensures Bounds(query).Ok? <==>
      && query.tenantID != [] && query.serviceID != [] && query.logType != [] && query.regionID != []
      && query.startTime != ZERO_TIME && query.endTime != ZERO_TIME && query.startTime < query.endTime
  {}

  lemma BoundsOrdered(query: LocatorQuery)
    requires Bounds(query).Ok?
    ensures KeyLess(Bounds(query).value.0, Bounds(query).value.1)
  {}
}
