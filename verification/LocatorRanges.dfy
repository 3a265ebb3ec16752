/** Range proofs for a served tree: which leaves they hold, and why the verifier accepts them. */
module LocatorRanges {
  import opened Hashing
  import opened LocatorKeys
  import opened LocatorPages
  import opened LocatorOrder
  import opened LocatorProofs
  import opened LocatorSoundness
  import opened LocatorPositions
  import opened LocatorChains

  /** The entry at position x is in the m-th leaf. */
  ghost predicate InLeaf(t: TreeView, m: nat, x: int)
    requires t.Valid()
  {
    m < |Leaves(t)| && Start(t, m) <= x < Start(t, m + 1)
  }

  function Low(i: int): int {
    if i == 0 then 0 else i - 1
  }

  ghost function High(t: TreeView, j: int): int
    requires t.Valid()
  {
    if j == |Entries(t)| then j else j + 1
  }

  /** The leaves from b up to c are those of the entries from i up to j and their neighbours. */
  ghost predicate Window(t: TreeView, i: int, j: int, b: nat, c: nat)
    requires t.Valid()
  {
    && 0 <= i <= j <= |Entries(t)| && b < c <= |Leaves(t)|
    && (if i == 0 then b == 0 else InLeaf(t, b, i - 1))
    && if j == |Entries(t)| then c == |Leaves(t)| else InLeaf(t, c - 1, j)
  }

  lemma StartOrder(t: TreeView, n: nat, m: nat)
    requires t.Valid() && n <= |Leaves(t)| && m <= |Leaves(t)| && Start(t, n) < Start(t, m)
    ensures n < m
  {
    hide TreeView.Valid, Leaves, Start;
    if m <= n { StartsGrow(t, m, n); }
  }

  lemma LocateLeaf(t: TreeView, x: nat) returns (m: nat)
    requires t.Valid() && x < |Entries(t)|
    ensures InLeaf(t, m, x)
  {
    hide TreeView.Valid, Leaves, Start, Entries, LeafAt;
    StartEnds(t);
    var k;
    m, k := Locate(t, x, |Leaves(t)|);
    NextStart(t, m);
  }

  /** The window around the leaf that holds the lower end. */
  lemma FindWindow(t: TreeView, i: nat, j: nat, a: nat) returns (b: nat, c: nat)
    requires t.Valid() && i <= j <= |Entries(t)| && a < |Leaves(t)| && Start(t, a) <= i <= Start(t, a + 1)
    ensures Window(t, i, j, b, c) && b <= a < c
  {
    hide TreeView.Valid, Leaves, Start, Entries;
    if i == 0 { b := 0; }
    else {
      b := LocateLeaf(t, i - 1);
      StartOrder(t, b, a + 1);
    }
    if j == |Entries(t)| { c := |Leaves(t)|; }
    else {
      var m := LocateLeaf(t, j);
      StartOrder(t, a, m + 1);
      c := m + 1;
    }
  }

  /** An entry of the range, or a neighbour, is in a leaf of the window. */
  lemma InWindow(t: TreeView, i: int, j: int, b: nat, c: nat, m: nat, x: int)
    requires t.Valid() && Window(t, i, j, b, c) && Low(i) <= x < High(t, j) && InLeaf(t, m, x)
    ensures b <= m < c
  {
    hide TreeView.Valid, Leaves, Start, Entries;
    if i > 0 { StartOrder(t, b, m + 1); }
    if j < |Entries(t)| { StartOrder(t, m, c); }
  }

  /** Every leaf of the window holds such an entry. */
  lemma WindowHit(t: TreeView, i: int, j: int, b: nat, c: nat, m: nat) returns (x: int)
    requires t.Valid() && Window(t, i, j, b, c) && b <= m < c && Entries(t) != []
    ensures Low(i) <= x < High(t, j) && InLeaf(t, m, x)
  {
    hide TreeView.Valid, Leaves, Start, Entries, LeafAt;
    StartEnds(t);
    StartsGrow(t, m + 1, |Leaves(t)|);
    if m == b && i > 0 { x := i - 1; }
    else if m == c - 1 && j < |Entries(t)| { x := j; }
    else {
      x := Start(t, m);
      StartsGrow(t, m, m + 1);
      if m > b { StartsGrow(t, b + 1, m); }
      if m < c - 1 { StartsGrow(t, m + 1, c - 1); }
    }
  }

  // ---- Gathering the leaf proofs ----

  ghost predicate ShowsIn(t: TreeView, proof: LocatorLeafProof, b: nat, c: nat)
    requires t.Valid()
  {
    exists m: nat :: b <= m < c && Shows(t, proof, m)
  }

  ghost predicate Gathered(t: TreeView, leaves: seq<LocatorLeafProof>, b: nat, c: nat)
    requires t.Valid()
  {
    Distinct(leaves) && forall x :: 0 <= x < |leaves| ==> ShowsIn(t, leaves[x], b, c)
  }

  ghost predicate Has(t: TreeView, leaves: seq<LocatorLeafProof>, m: nat)
    requires t.Valid()
  {
    m < |Leaves(t)| && Leaves(t)[m] in IDs(leaves)
  }

  lemma LeafDistinct(t: TreeView, n: nat, m: nat)
    requires t.Valid() && n < |Leaves(t)| && m < |Leaves(t)| && Leaves(t)[n] == Leaves(t)[m]
    ensures n == m
  {
    hide TreeView.Valid, Leaves;
    SpanIs(t, n);
    SpanIs(t, m);
    SameLow(t, n, m);
  }

  /** The proof of a leaf of the window, among those gathered. */
  lemma GatheredProof(t: TreeView, leaves: seq<LocatorLeafProof>, b: nat, c: nat,
                      m: nat) returns (proof: LocatorLeafProof)
    requires t.Valid() && Gathered(t, leaves, b, c) && Has(t, leaves, m)
    ensures proof in leaves && Shows(t, proof, m) && b <= m < c
  {
    hide TreeView.Valid, Leaves, Climbed, ShowsLeaf, IsLeftmost, IsRightmost;
    proof :| proof in leaves && proof.pageID == Leaves(t)[m];
    var x :| 0 <= x < |leaves| && leaves[x] == proof;
    var n: nat :| b <= n < c && Shows(t, proof, n);
    LeafDistinct(t, n, m);
  }

  /** The proofs show the leaves from b on, in order. */
  ghost predicate ShowsFrom(t: TreeView, chain: seq<LocatorLeafProof>, b: nat)
    requires t.Valid()
  {
    b + |chain| <= |Leaves(t)| && forall y :: 0 <= y < |chain| ==> Shows(t, chain[y], b + y)
  }

  lemma {:induction false} GatheredChain(t: TreeView, leaves: seq<LocatorLeafProof>, b: nat, c: nat,
                                         n: nat) returns (chain: seq<LocatorLeafProof>)
    requires t.Valid() && Gathered(t, leaves, b, c) && b + n <= c <= |Leaves(t)|
      && forall m :: b <= m < c ==> Has(t, leaves, m)
    ensures |chain| == n && ShowsFrom(t, chain, b) && forall y :: 0 <= y < n ==> chain[y] in leaves
  {
    hide TreeView.Valid, Leaves, Gathered, Has, Shows;
    if n == 0 {
      chain := [];
    } else {
      chain := GatheredChain(t, leaves, b, c, n - 1);
      var proof := GatheredProof(t, leaves, b, c, b + n - 1);
      chain := chain + [proof];
    }
  }

  lemma ShownID(t: TreeView, chain: seq<LocatorLeafProof>, b: nat, y: nat)
    requires t.Valid() && ShowsFrom(t, chain, b) && y < |chain|
    ensures b + y < |Leaves(t)| && chain[y].pageID == Leaves(t)[b + y] && Shows(t, chain[y], b + y)
    ensures b + y + 1 < |Leaves(t)| ==> chain[y].nextPageID == Some(Leaves(t)[b + y + 1])
    ensures b + y + 1 == |Leaves(t)| ==> chain[y].nextPageID == None
    ensures chain[y].keys == LeafAt(t, b + y).keys && chain[y].values == LeafAt(t, b + y).values
  {
    hide TreeView.Valid, Leaves, SpanAt;
    assert Shows(t, chain[y], b + y);
    ShownNext(t.pages, chain[y]);
    if b + y + 1 < |Leaves(t)| { Adjacent(t, b + y); } else { Ends(t); }
  }

  lemma GatheredIsChain(t: TreeView, leaves: seq<LocatorLeafProof>, b: nat, c: nat, chain: seq<LocatorLeafProof>)
    requires t.Valid() && Gathered(t, leaves, b, c) && b < c <= |Leaves(t)| && |chain| == c - b
    requires ShowsFrom(t, chain, b) && forall y :: 0 <= y < |chain| ==> chain[y] in leaves
    ensures IsChainOf(chain, leaves)
  {
    hide TreeView.Valid, Leaves, Gathered, ShowsFrom, Shows;
    forall x, y | 0 <= x < y < |chain| ensures chain[x].pageID != chain[y].pageID {
      ShownID(t, chain, b, x);
      ShownID(t, chain, b, y);
      if chain[x].pageID == chain[y].pageID { LeafDistinct(t, b + x, b + y); }
    }
    forall leaf | leaf in leaves ensures leaf in chain {
      MemberOfChain(t, leaves, b, c, chain, leaf);
    }
    forall y | 0 <= y < |chain| - 1 ensures Linked(chain[y], chain[y + 1]) {
      ShownID(t, chain, b, y);
      ShownID(t, chain, b, y + 1);
    }
    ShownID(t, chain, b, |chain| - 1);
    if c < |Leaves(t)| && Leaves(t)[c] in IDs(leaves) {
      var proof := GatheredProof(t, leaves, b, c, c);
    }
    assert Distinct(leaves) by { GatheredDistinct(t, leaves, b, c); }
  }

  lemma GatheredDistinct(t: TreeView, leaves: seq<LocatorLeafProof>, b: nat, c: nat)
    requires t.Valid() && Gathered(t, leaves, b, c)
    ensures Distinct(leaves)
  {}

  lemma MemberOfChain(t: TreeView, leaves: seq<LocatorLeafProof>, b: nat, c: nat, chain: seq<LocatorLeafProof>,
                      leaf: LocatorLeafProof)
    requires t.Valid() && Gathered(t, leaves, b, c) && c <= |Leaves(t)| && |chain| == c - b
    requires ShowsFrom(t, chain, b) && (forall y :: 0 <= y < |chain| ==> chain[y] in leaves) && leaf in leaves
    ensures leaf in chain
  {
    hide TreeView.Valid, Leaves, Climbed, ShowsLeaf, IsLeftmost, IsRightmost;
    var x :| 0 <= x < |leaves| && leaves[x] == leaf;
    assert ShowsIn(t, leaves[x], b, c);
    var m: nat :| b <= m < c && Shows(t, leaf, m);
    ShownID(t, chain, b, m - b);
    var z :| 0 <= z < |leaves| && leaves[z] == chain[m - b];
  }

  // ---- Why the verifier accepts ----

  lemma ChainConsecutive(t: TreeView, chain: seq<LocatorLeafProof>, b: nat)
    requires t.Valid() && ShowsFrom(t, chain, b) && chain != []
    ensures Consecutive(chain) && ReachesRoot(chain, t.rootHash)
    ensures ShowsRun(t.pages, Leaves(t), chain, b, |chain|)
  {
    hide TreeView.Valid, Leaves, ShowsFrom, Climbed, EntriesSorted, FlatEntries, LeafAt, ShowsLeaf, IsLeftmost,
      IsRightmost;
    forall y | 0 <= y < |chain|
      ensures LinkOK(chain, y) && NewLeaf(chain, y) && Climbed(chain[y], |chain[y].path|) == Ok(t.rootHash) {
      ChainLink(t, chain, b, y);
    }
    ShownIDLast(t, chain, b);
    forall y | 0 <= y < |chain| ensures Leaves(t)[b + y] == chain[y].pageID && ShowsLeaf(t.pages, chain[y]) {
      ShownID(t, chain, b, y);
    }
    ChainEntries(t, chain, b);
  }

  lemma ShownIDLast(t: TreeView, chain: seq<LocatorLeafProof>, b: nat)
    requires t.Valid() && ShowsFrom(t, chain, b)
    ensures b + |chain| <= |Leaves(t)|
  {}

  lemma ChainLink(t: TreeView, chain: seq<LocatorLeafProof>, b: nat, y: nat)
    requires t.Valid() && ShowsFrom(t, chain, b) && y < |chain|
    ensures LinkOK(chain, y) && NewLeaf(chain, y) && Climbed(chain[y], |chain[y].path|) == Ok(t.rootHash)
  {
    hide TreeView.Valid, Leaves, ShowsFrom, Climbed, ShowsLeaf, IsLeftmost, IsRightmost;
    ShownID(t, chain, b, 0);
    ShownID(t, chain, b, y);
    LeafFacts(t, b + y);
    if |chain| > 1 {
      ShownID(t, chain, b, |chain| - 1);
      NonEmpty(t, b + y);
    }
    if y + 1 < |chain| { ShownID(t, chain, b, y + 1); }
    forall x | 0 <= x < y ensures chain[x].pageID != chain[y].pageID {
      ShownID(t, chain, b, x);
      if chain[x].pageID == chain[y].pageID { LeafDistinct(t, b + x, b + y); }
    }
  }

  /** The entries of the chain are a stretch of all entries. */
  lemma ChainEntries(t: TreeView, chain: seq<LocatorLeafProof>, b: nat)
    requires t.Valid() && b + |chain| <= |Leaves(t)| && ShowsRun(t.pages, Leaves(t), chain, b, |chain|)
    ensures Start(t, b) <= Start(t, b + |chain|) <= |Entries(t)|
    ensures FlatEntries(chain, |chain|) == Entries(t)[Start(t, b)..Start(t, b + |chain|)]
    ensures EntriesSorted(FlatEntries(chain, |chain|))
  {
    hide TreeView.Valid, Leaves, ShowsRun, FlatEntries, RunEntries, EntriesSorted, Entries;
    EntriesAre(t);
    AllSorted(t);
    RunStretch(t.pages, Leaves(t), chain, b);
  }

  lemma RunStretch(pages: Pages, s: seq<int>, chain: seq<LocatorLeafProof>, b: nat)
    requires RunIn(pages, s) && b + |chain| <= |s| && ShowsRun(pages, s, chain, b, |chain|)
    ensures var all, from, to := RunEntries(pages, s, |s|), |RunEntries(pages, s, b)|,
      |RunEntries(pages, s, b + |chain|)|;
      from <= to <= |all| && FlatEntries(chain, |chain|) == all[from..to]
      && (EntriesSorted(all) ==> EntriesSorted(FlatEntries(chain, |chain|)))
  {
    hide ShowsRun, FlatEntries, RunEntries, EntriesSorted;
    RunEntriesShown(pages, s, chain, b, |chain|);
    var rest := RunPrefix(pages, s, b + |chain|, |s|);
    Stretch(RunEntries(pages, s, |s|), RunEntries(pages, s, b + |chain|), RunEntries(pages, s, b),
            FlatEntries(chain, |chain|), rest);
  }

  lemma Stretch(all: seq<LocatorEntry>, upTo: seq<LocatorEntry>, before: seq<LocatorEntry>, flat: seq<LocatorEntry>,
                rest: seq<LocatorEntry>)
    requires all == upTo + rest && upTo == before + flat
    ensures |before| <= |upTo| <= |all| && flat == all[|before|..|upTo|]
    ensures EntriesSorted(all) ==> EntriesSorted(flat)
  {
    hide KeyLess;
    assert forall x :: 0 <= x < |flat| ==> flat[x] == all[|before| + x];
  }

  lemma PartOfPart(all: seq<LocatorEntry>, from: nat, to: nat, i: nat, j: nat)
    requires from <= i <= j <= to <= |all|
    ensures all[i..j] == all[from..to][i - from..j - from]
  {
    var part := all[from..to];
    assert forall x :: i <= x < j ==> part[x - from] == all[x];
  }

  lemma EntriesAre(t: TreeView)
    requires t.Valid()
    ensures Entries(t) == RunEntries(t.pages, Leaves(t), |Leaves(t)|)
  {}

  /** Entries below a bound stay so in a stretch. */
  lemma SplitPart(all: seq<LocatorEntry>, from: nat, to: nat, bound: LocatorKey, i: int)
    requires from <= i <= to <= |all| && SplitsAt(all, bound, i)
    ensures SplitsAt(all[from..to], bound, i - from)
  {
    hide KeyLess;
    var part := all[from..to];
    assert forall x :: 0 <= x < |part| ==> part[x] == all[from + x];
  }

  lemma WindowAccepted(t: TreeView, chain: seq<LocatorLeafProof>, b: nat, c: nat, i: int, j: int, lower: LocatorKey,
                       upper: LocatorKey, result: LocatorRangeResult)
    requires t.Valid() && ShowsFrom(t, chain, b) && b + |chain| == c && Window(t, i, j, b, c)
    requires SplitsAt(Entries(t), lower, i) && SplitsAt(Entries(t), upper, j) && AnswersAt(Entries(t), i, j, result)
    requires KeyLess(lower, upper)
    requires result.proof == LocatorRangeProof(chain, t.rootHash)
    ensures Accepts(lower, upper, result, t.rootHash)
  {
    hide TreeView.Valid, Leaves, Start, Entries, ShowsFrom, Consecutive, ReachesRoot, ShowsRun, SplitsAt, FlatEntries,
      KeyLess, IsLeftmost, IsRightmost;
    var from, to, all := Start(t, b), Start(t, c), Entries(t);
    ChainConsecutive(t, chain, b);
    ChainEntries(t, chain, b);
    StartEnds(t);
    StartsGrow(t, b + 1, c);
    if i == 0 { assert from == 0; }
    SplitPart(all, from, to, lower, i);
    SplitPart(all, from, to, upper, j);
    var flat := all[from..to];
    PartOfPart(all, from, to, i, j);
    assert AnswersAt(flat, i - from, j - from, result);
    ChainEdges(t, chain, b);
  }

  lemma ChainEdges(t: TreeView, chain: seq<LocatorLeafProof>, b: nat)
    requires t.Valid() && ShowsFrom(t, chain, b) && chain != []
    ensures b == 0 ==> IsLeftmost(chain[0])
    ensures b + |chain| == |Leaves(t)| ==> IsRightmost(chain[|chain| - 1])
  {
    hide TreeView.Valid, Leaves, Climbed, ShowsLeaf, IsLeftmost, IsRightmost;
    assert Shows(t, chain[0], b + 0);
    assert Shows(t, chain[|chain| - 1], b + (|chain| - 1));
  }
}
