/** Range proofs and their verifier (internal/all/locator_range.go). */
module LocatorProofs {
  import opened Hashing
  import opened LocatorKeys
  import opened LocatorOrder

  /** An internal page on the way from a leaf to the root. */
  datatype LocatorProofStep = LocatorProofStep(pageID: int, keys: seq<LocatorKey>, childIndex: int,
                                               childHashes: seq<Digest>)

  /** A complete leaf with its path from parent to root. */
  datatype LocatorLeafProof = LocatorLeafProof(
    pageID: int, nextPageID: Option<int>, keys: seq<LocatorKey>, values: seq<Option<LocatorValue>>,
    path: seq<LocatorProofStep>)

  datatype LocatorRangeProof = LocatorRangeProof(leaves: seq<LocatorLeafProof>, reconstructedRoot: Digest)

  datatype LocatorRangeResult = LocatorRangeResult(
    entries: seq<LocatorEntry>, predecessor: Option<LocatorEntry>, successor: Option<LocatorEntry>,
    proof: LocatorRangeProof)

  // ---- Reconstructing a root ----

  function LeafContents(proof: LocatorLeafProof): Preimage {
    LeafPage(proof.pageID, proof.nextPageID, proof.keys, proof.values)
  }

  predicate StepOK(step: LocatorProofStep) {
    |step.childHashes| == |step.keys| + 1 && 0 <= step.childIndex < |step.childHashes|
  }

  function StepContents(step: LocatorProofStep, current: Digest): Preimage
    requires StepOK(step)
  {
    InternalPage(step.keys, step.childHashes[step.childIndex := current])
  }

  /** The hash computed after the first n steps of the path. */
  function Climbed(proof: LocatorLeafProof, n: nat): Result<Digest>
    requires n <= |proof.path|
  {
    if n == 0 then if |proof.keys| != |proof.values| then Err else Ok(H(LeafContents(proof)))
    else
      var below := Climbed(proof, n - 1);
      if below.Err? || !StepOK(proof.path[n - 1]) then Err else Ok(H(StepContents(proof.path[n - 1], below.value)))
  }

  method ReconstructLocatorRoot(proof: LocatorLeafProof) returns (r: Result<Digest>)
    ensures r == Climbed(proof, |proof.path|)
  {
    if |proof.keys| != |proof.values| {
      ClimbFails(proof, 0, |proof.path|);
      return Err;
    }
    var current := H(LeafContents(proof));
    for i := 0 to |proof.path|
      invariant Climbed(proof, i) == Ok(current)
    {
      if !StepOK(proof.path[i]) {
        ClimbFails(proof, i + 1, |proof.path|);
        return Err;
      }
      current := H(StepContents(proof.path[i], current));
    }
    return Ok(current);
  }

  lemma {:induction false} ClimbFails(proof: LocatorLeafProof, n: nat, m: nat)
    requires n <= m <= |proof.path| && Climbed(proof, n).Err?
    ensures Climbed(proof, m).Err?
    decreases m
  {
    if n < m { ClimbFails(proof, n, m - 1); }
  }

  /** Everything hashed to reconstruct a root. */
  function ClimbContents(proof: LocatorLeafProof): set<Preimage> {
    {LeafContents(proof)}
    + set n | 0 <= n < |proof.path| && Climbed(proof, n).Ok? && StepOK(proof.path[n])
      :: StepContents(proof.path[n], Climbed(proof, n).value)
  }

  predicate ReachesRoot(leaves: seq<LocatorLeafProof>, root: Digest) {
    forall i :: 0 <= i < |leaves| ==> Climbed(leaves[i], |leaves[i].path|) == Ok(root)
  }

  method VerifyLocatorPathProofs(proof: LocatorRangeProof, trustedRoot: Digest) returns (ok: bool)
    ensures ok <==>
      proof.leaves != [] && ReachesRoot(proof.leaves, trustedRoot) && proof.reconstructedRoot == trustedRoot
  {
    if |proof.leaves| == 0 { return false; }
    for i := 0 to |proof.leaves|
      invariant ReachesRoot(proof.leaves[..i], trustedRoot)
    {
      var reconstructed := ReconstructLocatorRoot(proof.leaves[i]);
      if reconstructed != Ok(trustedRoot) { return false; }
    }
    assert proof.leaves[..|proof.leaves|] == proof.leaves;
    return proof.reconstructedRoot == trustedRoot;
  }

  // ---- Consecutive leaves ----

  /** The entries of a leaf with these contents. */
  function EntriesOf(pageID: int, keys: seq<LocatorKey>, values: seq<Option<LocatorValue>>): (r: seq<LocatorEntry>)
    ensures |r| == |keys|
  {
    seq(|keys|, i requires 0 <= i < |keys| => LocatorEntry(pageID, keys[i], if i < |values| then values[i] else None))
  }

  function LeafEntries(leaf: LocatorLeafProof): (r: seq<LocatorEntry>)
    ensures |r| == |leaf.keys|
  {
    EntriesOf(leaf.pageID, leaf.keys, leaf.values)
  }

  /** The entries of the first n leaves. */
  function FlatEntries(leaves: seq<LocatorLeafProof>, n: nat): seq<LocatorEntry>
    requires n <= |leaves|
  {
    if n == 0 then [] else FlatEntries(leaves, n - 1) + LeafEntries(leaves[n - 1])
  }

  predicate EntriesSorted(s: seq<LocatorEntry>) {
    forall i, j :: 0 <= i < j < |s| ==> KeyLess(s[i].key, s[j].key)
  }

  /** What a leaf of a chain must satisfy besides the order of its keys. */
  predicate LinkOK(leaves: seq<LocatorLeafProof>, i: nat)
    requires i < |leaves|
  {
    && |leaves[i].path| == |leaves[0].path| && |leaves[i].keys| == |leaves[i].values|
    && (|leaves| > 1 ==> leaves[i].keys != [])
    && (i + 1 < |leaves| ==> leaves[i].nextPageID == Some(leaves[i + 1].pageID))
  }

  ghost predicate NewLeaf(leaves: seq<LocatorLeafProof>, n: nat)
    requires n < |leaves|
  {
    forall i :: 0 <= i < n ==> leaves[i].pageID != leaves[n].pageID
  }

  /** The first n leaves are linked, at one depth, distinct, and their keys strictly ordered. */
  ghost predicate ConsecutiveTo(leaves: seq<LocatorLeafProof>, n: nat)
    requires n <= |leaves|
  {
    && (forall i :: 0 <= i < n ==> LinkOK(leaves, i) && NewLeaf(leaves, i)) && EntriesSorted(FlatEntries(leaves, n))
  }

  ghost predicate Consecutive(leaves: seq<LocatorLeafProof>) {
    leaves != [] && ConsecutiveTo(leaves, |leaves|)
  }

  method VerifyConsecutiveLeafProofs(leaves: seq<LocatorLeafProof>) returns (ok: bool)
    ensures ok <==> Consecutive(leaves)
  {
    hide ConsecutiveTo, LinkOK, FlatEntries, LeafEntries, EntriesSorted, NewLeaf, LastKey;
    if |leaves| == 0 { return false; }
    var seen: set<int> := {};
    var previous: Option<LocatorKey> := None;
    NothingYet(leaves);
    for n := 0 to |leaves|
      invariant ConsecutiveTo(leaves, n) && LastKey(FlatEntries(leaves, n), previous) && SeenTo(leaves, n, seen)
    {
      var leaf := leaves[n];
      NextLeaf(leaves, n, seen);
      if !ConsecutiveNext(leaves, n, seen) { return false; }
      seen := seen + {leaf.pageID};
      var ordered;
      ordered, previous := VerifyKeys(leaf, previous, FlatEntries(leaves, n));
      if !ordered { return false; }
    }
    return true;
  }

  /** The identifiers of the first n leaves. */
  ghost predicate SeenTo(leaves: seq<LocatorLeafProof>, n: nat, seen: set<int>)
    requires n <= |leaves|
  {
    (forall i :: 0 <= i < n ==> leaves[i].pageID in seen)
    && forall id :: id in seen ==> exists i :: 0 <= i < n && leaves[i].pageID == id
  }

  predicate ConsecutiveNext(leaves: seq<LocatorLeafProof>, n: nat, seen: set<int>)
    requires n < |leaves|
  {
    leaves[n].pageID !in seen && LinkOK(leaves, n)
  }

  lemma NothingYet(leaves: seq<LocatorLeafProof>)
    ensures ConsecutiveTo(leaves, 0) && LastKey(FlatEntries(leaves, 0), None) && SeenTo(leaves, 0, {})
  {}

  lemma NextLeaf(leaves: seq<LocatorLeafProof>, n: nat, seen: set<int>)
    requires n < |leaves| && ConsecutiveTo(leaves, n) && SeenTo(leaves, n, seen)
    ensures EntriesSorted(FlatEntries(leaves, n))
    ensures FlatEntries(leaves, n + 1) == FlatEntries(leaves, n) + LeafEntries(leaves[n])
    ensures SeenTo(leaves, n + 1, seen + {leaves[n].pageID})
    ensures ConsecutiveTo(leaves, n + 1) <==>
      ConsecutiveNext(leaves, n, seen) && EntriesSorted(FlatEntries(leaves, n + 1))
    ensures Consecutive(leaves) ==> ConsecutiveTo(leaves, n + 1)
  {
    hide LinkOK, EntriesSorted, LeafEntries;
    assert NewLeaf(leaves, n) <==> leaves[n].pageID !in seen;
    if Consecutive(leaves) { ShorterSorted(leaves, n + 1, |leaves|); }
  }

  lemma {:induction false} ShorterSorted(leaves: seq<LocatorLeafProof>, n: nat, m: nat)
    requires n <= m <= |leaves| && EntriesSorted(FlatEntries(leaves, m))
    ensures EntriesSorted(FlatEntries(leaves, n))
    decreases m
  {
    hide LeafEntries, KeyLess;
    if n < m {
      var shorter := FlatEntries(leaves, m - 1);
      assert forall i :: 0 <= i < |shorter| ==> shorter[i] == FlatEntries(leaves, m)[i];
      ShorterSorted(leaves, n, m - 1);
    }
  }

  ghost predicate LastKey(entries: seq<LocatorEntry>, previous: Option<LocatorKey>) {
    previous == if entries == [] then None else Some(entries[|entries| - 1].key)
  }

  /** Checks that the keys of a leaf continue the order. */
  method VerifyKeys(leaf: LocatorLeafProof, previous0: Option<LocatorKey>, ghost before: seq<LocatorEntry>)
    returns (ok: bool, previous: Option<LocatorKey>)
    requires EntriesSorted(before) && LastKey(before, previous0)
    ensures ok <==> EntriesSorted(before + LeafEntries(leaf))
    ensures ok ==> LastKey(before + LeafEntries(leaf), previous)
  {
    hide KeyLess, EntriesSorted, LastKey;
    ghost var entries := LeafEntries(leaf);
    previous := previous0;
    assert before + entries[..0] == before;
    for i := 0 to |leaf.keys|
      invariant EntriesSorted(before + entries[..i]) && LastKey(before + entries[..i], previous)
    {
      var key := leaf.keys[i];
      NextKey(before + entries[..i], entries[i], previous);
      assert before + entries[..i] + [entries[i]] == before + entries[..i + 1];
      if previous.Some? && !KeyLess(previous.value, key) {
        PrefixOf(before + entries[..i + 1], entries[i + 1..]);
        assert before + entries[..i + 1] + entries[i + 1..] == before + entries;
        return false, previous;
      }
      previous := Some(key);
    }
    assert entries[..|leaf.keys|] == entries;
    return true, previous;
  }

  lemma NextKey(before: seq<LocatorEntry>, entry: LocatorEntry, previous: Option<LocatorKey>)
    requires EntriesSorted(before) && LastKey(before, previous)
    ensures EntriesSorted(before + [entry]) <==> previous.None? || KeyLess(previous.value, entry.key)
    ensures LastKey(before + [entry], Some(entry.key))
  {
    hide KeyLess;
    KeyOrder();
    var after := before + [entry];
    if previous.Some? {
      if EntriesSorted(after) { assert KeyLess(after[|before| - 1].key, after[|before|].key); }
    }
  }

  lemma PrefixOf(a: seq<LocatorEntry>, b: seq<LocatorEntry>)
    ensures EntriesSorted(a + b) ==> EntriesSorted(a)
  {
    hide KeyLess;
    assert forall i :: 0 <= i < |a| ==> a[i] == (a + b)[i];
  }

  // ---- The answer to a range query ----

  /** The entries before i have smaller keys than the bound, the others do not. */
  predicate SplitsAt(entries: seq<LocatorEntry>, bound: LocatorKey, i: int) {
    && 0 <= i <= |entries| && (forall n :: 0 <= n < i ==> KeyLess(entries[n].key, bound))
    && forall n :: i <= n < |entries| ==> KeyAtMost(bound, entries[n].key)
  }

  function EntryBefore(entries: seq<LocatorEntry>, i: int): Option<LocatorEntry>
    requires 0 <= i <= |entries|
  {
    if i == 0 then None else Some(entries[i - 1])
  }

  function EntryFrom(entries: seq<LocatorEntry>, j: int): Option<LocatorEntry>
    requires 0 <= j <= |entries|
  {
    if j == |entries| then None else Some(entries[j])
  }

  /** The result holds exactly the entries in [lower, upper), in order, and their immediate neighbours. */
  ghost predicate Answers(entries: seq<LocatorEntry>, lower: LocatorKey, upper: LocatorKey,
                          result: LocatorRangeResult) {
    exists i, j :: SplitsAt(entries, lower, i) && SplitsAt(entries, upper, j) && i <= j
      && AnswersAt(entries, i, j, result)
  }

  predicate AnswersAt(entries: seq<LocatorEntry>, i: int, j: int, result: LocatorRangeResult)
    requires 0 <= i <= j <= |entries|
  {
    result.entries == entries[i..j] && result.predecessor == EntryBefore(entries, i)
    && result.successor == EntryFrom(entries, j)
  }

  predicate IsLeftmost(leaf: LocatorLeafProof) {
    forall i :: 0 <= i < |leaf.path| ==> leaf.path[i].childIndex == 0
  }

  predicate IsRightmost(leaf: LocatorLeafProof) {
    leaf.nextPageID.None?
    && forall i :: 0 <= i < |leaf.path| ==>
      leaf.path[i].childHashes != [] && leaf.path[i].childIndex == |leaf.path[i].childHashes| - 1
  }

  /** Where a neighbour is missing, the leaves reach the edge of the tree. */
  predicate EdgesOK(result: LocatorRangeResult)
    requires result.proof.leaves != []
  {
    var leaves := result.proof.leaves;
    (result.predecessor.None? ==> IsLeftmost(leaves[0]))
    && (result.successor.None? ==> IsRightmost(leaves[|leaves| - 1]))
  }

  /** What the range verifier accepts. */
  ghost predicate Accepts(lower: LocatorKey, upper: LocatorKey, result: LocatorRangeResult, trustedRoot: Digest) {
    var leaves := result.proof.leaves;
    && KeyLess(lower, upper) && Consecutive(leaves) && ReachesRoot(leaves, trustedRoot)
    && result.proof.reconstructedRoot == trustedRoot
    && Answers(FlatEntries(leaves, |leaves|), lower, upper, result) && EdgesOK(result)
  }

  method VerifyLocatorRangeResult(lower: LocatorKey, upper: LocatorKey, result: LocatorRangeResult,
                                  trustedRoot: Digest) returns (ok: bool)
    ensures ok <==> Accepts(lower, upper, result, trustedRoot)
  {
    hide ConsecutiveTo, FlatEntries, SplitsAt, ReachesRoot, KeyLess, IsLeftmost, IsRightmost;
    var leaves := result.proof.leaves;
    if !KeyLess(lower, upper) { return false; }
    var paths := VerifyLocatorPathProofs(result.proof, trustedRoot);
    if !paths { return false; }
    var consecutive := VerifyConsecutiveLeafProofs(leaves);
    if !consecutive { return false; }
    ConsecutiveSorted(leaves);
    var entries := FlattenProofEntries(leaves);
    var matches, predecessor, successor, i, j := ScanEntries(entries, lower, upper);
    AnswersOnly(entries, lower, upper, result, i, j);
    if predecessor.None? && !IsLeftmost(leaves[0]) { return false; }
    if successor.None? && !IsRightmost(leaves[|leaves| - 1]) { return false; }
    if result.predecessor != predecessor || result.successor != successor { return false; }
    return result.entries == matches;
  }

  lemma ConsecutiveSorted(leaves: seq<LocatorLeafProof>)
    requires Consecutive(leaves)
    ensures leaves != [] && EntriesSorted(FlatEntries(leaves, |leaves|))
  {
    hide FlatEntries, EntriesSorted, LinkOK;
  }

  method FlattenProofEntries(leaves: seq<LocatorLeafProof>) returns (entries: seq<LocatorEntry>)
    ensures entries == FlatEntries(leaves, |leaves|)
  {
    hide LeafEntries;
    entries := [];
    for n := 0 to |leaves|
      invariant entries == FlatEntries(leaves, n)
    {
      entries := entries + LeafEntries(leaves[n]);
    }
  }

  /** What the scan has found among the first n entries. */
  ghost predicate Scanned(entries: seq<LocatorEntry>, lower: LocatorKey, upper: LocatorKey, n: nat, i: int, j: int)
    requires n <= |entries|
  {
    && 0 <= i <= j <= n && (forall m :: 0 <= m < j ==> KeyLess(entries[m].key, if m < i then lower else upper))
    && forall m :: i <= m < n ==> KeyAtMost(if m < j then lower else upper, entries[m].key)
  }

  method ScanEntries(entries: seq<LocatorEntry>, lower: LocatorKey, upper: LocatorKey)
    returns (matches: seq<LocatorEntry>, predecessor: Option<LocatorEntry>, successor: Option<LocatorEntry>,
             ghost i: int, ghost j: int)
    requires EntriesSorted(entries) && KeyLess(lower, upper)
    ensures SplitsAt(entries, lower, i) && SplitsAt(entries, upper, j) && i <= j
    ensures matches == entries[i..j] && predecessor == EntryBefore(entries, i) && successor == EntryFrom(entries, j)
  {
    hide KeyLess, EntriesSorted, Scanned, SplitsAt;
    matches, predecessor, successor := [], None, None;
    i, j := 0, 0;
    StartScan(entries, lower, upper);
    for n := 0 to |entries|
      invariant Scanned(entries, lower, upper, n, i, j) && 0 <= i <= j <= n
      invariant matches == entries[i..j] && predecessor == EntryBefore(entries, i)
      invariant successor == if j == n then None else Some(entries[j])
    {
      var entry := entries[n];
      ScanNext(entries, lower, upper, n, i, j);
      if KeyLess(entry.key, lower) {
        predecessor := Some(entry);
        i, j := n + 1, n + 1;
      } else if KeyLess(entry.key, upper) {
        matches := matches + [entry];
        j := n + 1;
      } else if successor.None? {
        successor := Some(entry);
      }
    }
    ScanDone(entries, lower, upper, i, j);
  }

  lemma StartScan(entries: seq<LocatorEntry>, lower: LocatorKey, upper: LocatorKey)
    ensures Scanned(entries, lower, upper, 0, 0, 0)
  {}

  lemma ScanNext(entries: seq<LocatorEntry>, lower: LocatorKey, upper: LocatorKey, n: nat, i: int, j: int)
    requires n < |entries| && Scanned(entries, lower, upper, n, i, j) && EntriesSorted(entries) && KeyLess(lower, upper)
    ensures KeyLess(entries[n].key, lower) ==> i == n && j == n && Scanned(entries, lower, upper, n + 1, n + 1, n + 1)
    ensures !KeyLess(entries[n].key, lower) && KeyLess(entries[n].key, upper) ==>
      j == n && Scanned(entries, lower, upper, n + 1, i, n + 1)
    ensures !KeyLess(entries[n].key, lower) && !KeyLess(entries[n].key, upper) ==>
      Scanned(entries, lower, upper, n + 1, i, j)
  {
    hide KeyLess;
    KeyOrder();
    if i < n { assert KeyLess(entries[i].key, entries[n].key); }
    if j < n { assert KeyLess(entries[j].key, entries[n].key); }
  }

  lemma ScanDone(entries: seq<LocatorEntry>, lower: LocatorKey, upper: LocatorKey, i: int, j: int)
    requires Scanned(entries, lower, upper, |entries|, i, j) && KeyLess(lower, upper)
    ensures SplitsAt(entries, lower, i) && SplitsAt(entries, upper, j)
  {
    hide KeyLess;
    KeyOrder();
  }

  predicate LessAt(entries: seq<LocatorEntry>, bound: LocatorKey, n: int) {
    0 <= n < |entries| && KeyLess(entries[n].key, bound)
  }

  lemma SplitUnique(entries: seq<LocatorEntry>, bound: LocatorKey, i: int, j: int)
    requires SplitsAt(entries, bound, i) && SplitsAt(entries, bound, j)
    ensures i == j
  {
    hide KeyLess;
    assert i < j <==> LessAt(entries, bound, i);
    assert j < i <==> LessAt(entries, bound, j);
  }

  lemma AnswersOnly(entries: seq<LocatorEntry>, lower: LocatorKey, upper: LocatorKey, result: LocatorRangeResult,
                    i: int, j: int)
    requires SplitsAt(entries, lower, i) && SplitsAt(entries, upper, j) && i <= j
    ensures Answers(entries, lower, upper, result) <==>
      0 <= i <= j <= |entries| && AnswersAt(entries, i, j, result)
  {
    hide KeyLess, AnswersAt;
    forall i', j' | SplitsAt(entries, lower, i') && SplitsAt(entries, upper, j') ensures i' == i && j' == j {
      SplitUnique(entries, lower, i, i');
      SplitUnique(entries, upper, j, j');
    }
  }
}
