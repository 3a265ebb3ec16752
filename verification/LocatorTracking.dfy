/** What an insertion keeps besides the shape: page hashes off the insertion path, the set of
    updated pages, and the entries. */
module LocatorTracking {
  import opened Hashing
  import opened LocatorKeys
  import opened LocatorPages
  import opened LocatorSteps

  function ChildHashes(pages: Pages, children: seq<int>): (r: seq<Digest>)
    ensures |r| == |children|
  {
    seq(|children|, i requires 0 <= i < |children| => if children[i] in pages then pages[children[i]].hash else 0)
  }

  /** What is hashed for a page (leafHash and internalHash). */
  function PageContents(pages: Pages, page: Page): Preimage {
    if page.isLeaf then LeafPage(page.pageID, page.next, page.keys, page.values)
    else InternalPage(page.keys, ChildHashes(pages, page.children))
  }

  function PageHash(pages: Pages, page: Page): Digest {
    H(PageContents(pages, page))
  }

  ghost predicate HashOK(pages: Pages, p: int)
    requires p in pages
  {
    pages[p].hash == PageHash(pages, pages[p])
  }

  ghost predicate SameHashes(before: Pages, pages: Pages, children: seq<int>) {
    forall c :: c in children ==> c in before && c in pages && pages[c].hash == before[c].hash
  }

  /** Page and children's hashes are as before. */
  ghost predicate Unchanged(before: Pages, pages: Pages, p: int)
    requires p in pages
  {
    p in before && pages[p] == before[p] && SameHashes(before, pages, pages[p].children)
  }

  /** A page on the path to the anchor key, at a level whose hash is still to be recomputed. */
  ghost predicate Pending(spans: Spans, anchor: LocatorKey, level: int, p: int)
    requires p in spans
  {
    Covers(spans[p], anchor) && spans[p].level >= level
  }

  /** Off the pending path every hash is right, and what is not listed as updated is unchanged. */
  ghost predicate Track(before: Pages, pages: Pages, spans: Spans, anchor: LocatorKey, level: int, updates: set<int>) {
    forall p :: p in pages && p in spans && !Pending(spans, anchor, level, p) ==>
      HashOK(pages, p) && (p !in updates ==> Unchanged(before, pages, p))
  }

  /** A page's hash depends on its contents and its children's hashes. */
  lemma SameHash(pages: Pages, pages': Pages, p: int)
    requires p in pages && p in pages' && HashOK(pages, p)
    requires pages'[p].hash == pages[p].hash && pages'[p].isLeaf == pages[p].isLeaf
    requires pages'[p].pageID == pages[p].pageID
    requires pages'[p].next == pages[p].next && pages'[p].keys == pages[p].keys && pages'[p].values == pages[p].values
    requires pages'[p].children == pages[p].children && SameHashes(pages, pages', pages[p].children)
    ensures HashOK(pages', p)
  {
    var children := pages[p].children;
    forall i | 0 <= i < |children| ensures ChildHashes(pages', children)[i] == ChildHashes(pages, children)[i] {
      var c := children[i];
      assert c in children;
    }
    assert ChildHashes(pages', children) == ChildHashes(pages, children);
  }

  lemma SameHashesThrough(a: Pages, b: Pages, c: Pages, children: seq<int>)
    requires SameHashes(a, b, children) && SameHashes(b, c, children)
    ensures SameHashes(a, c, children)
  {}

  /** The parent of a page on the path to a key is on it too. */
  lemma PathUp(pages: Pages, spans: Spans, root: int, height: int, x: int, k: LocatorKey)
    requires Shape(pages, spans, root, height) && x in pages && x in spans && Covers(spans[x], k)
    requires pages[x].parent.Some?
    ensures var q := pages[x].parent.value;
      q in spans && q in pages && Covers(spans[q], k) && spans[q].level == spans[x].level + 1
  {
    hide Shape, PageOK, Covers, InnerOK;
    PageAt(pages, spans, root, height, x);
    var i := ParentOf(pages, spans, root, height, x);
    InnerAt(pages, spans, pages[x].parent.value);
    ChildWithin(pages, spans, pages[x].parent.value, i, k);
  }

  lemma InnerAt(pages: Pages, spans: Spans, q: int)
    requires q in pages && q in spans && PageOK(pages, spans, q) && !pages[q].isLeaf
    ensures InnerOK(pages, spans, q)
  {
    hide InnerOK;
  }

  /** Only its parent has a page among its children. */
  lemma OnlyParent(pages: Pages, spans: Spans, root: int, height: int, p: int, c: int)
    requires Shape(pages, spans, root, height) && p in pages && c in pages[p].children
    ensures c in pages && pages[c].parent == Some(p)
  {
    hide Shape, KeysSorted, StrictlyIn, Covers, Placed, NextOK;
    PageAt(pages, spans, root, height, p);
    if !pages[p].isLeaf {
      var i :| 0 <= i < |pages[p].children| && pages[p].children[i] == c;
      assert ChildOK(pages, spans, p, i);
    }
  }

  /** A split of a page on the path keeps what is tracked. */
  lemma SplitTracked(before: Pages, pages: Pages, spans: Spans, pages': Pages, spans': Spans, root: int, height: int,
                     s: Split, anchor: LocatorKey, level: int, updates: set<int>, updates': set<int>)
    requires Shape(pages, spans, root, height) && SplitPages(pages, pages', s) && SplitSpans(spans, spans', s)
    requires Track(before, pages, spans, anchor, level, updates) && Covers(spans[s.x], anchor)
    requires level <= spans[s.x].level
    requires HashOK(pages', s.x) || Covers(spans'[s.x], anchor)
    requires HashOK(pages', s.r) || Covers(spans'[s.r], anchor)
    requires updates <= updates' && s.x in updates' && s.r in updates' && s.moved <= updates'
    ensures Track(before, pages', spans', anchor, level, updates')
  {
    hide Shape, Covers, HashOK, Unchanged, SplitPages, SplitSpans;
    forall p | p in pages' && p in spans' && !Pending(spans', anchor, level, p)
      ensures HashOK(pages', p) && (p !in updates' ==> Unchanged(before, pages', p))
    {
      PageTracked(before, pages, spans, pages', spans', root, height, s, anchor, level, updates, updates', p);
    }
  }

  lemma PageTracked(before: Pages, pages: Pages, spans: Spans, pages': Pages, spans': Spans, root: int, height: int,
                    s: Split, anchor: LocatorKey, level: int, updates: set<int>, updates': set<int>, p: int)
    requires Shape(pages, spans, root, height) && SplitPages(pages, pages', s) && SplitSpans(spans, spans', s)
    requires Track(before, pages, spans, anchor, level, updates) && Covers(spans[s.x], anchor)
    requires level <= spans[s.x].level
    requires HashOK(pages', s.x) || Covers(spans'[s.x], anchor)
    requires HashOK(pages', s.r) || Covers(spans'[s.r], anchor)
    requires updates <= updates' && s.x in updates' && s.r in updates' && s.moved <= updates'
    requires p in pages' && p in spans' && !Pending(spans', anchor, level, p)
    ensures HashOK(pages', p) && (p !in updates' ==> Unchanged(before, pages', p))
  {
    hide Shape, Covers, HashOK, SameHashes, IsChild, WithPair;
    ShapeDomain(pages, spans, root, height);
    PathUp(pages, spans, root, height, s.x, anchor);
    if p != s.x && p != s.r {
      assert p != s.q;
      assert SameHashes(pages, pages', pages[p].children) by {
        hide *;
        ChildrenKept(pages, spans, pages', spans', root, height, s, p);
      }
      SameHash(pages, pages', p);
      if p !in updates' { SameHashesThrough(before, pages, pages', pages[p].children); }
    }
  }

  lemma ChildrenKept(pages: Pages, spans: Spans, pages': Pages, spans': Spans, root: int, height: int, s: Split, p: int)
    requires Shape(pages, spans, root, height) && SplitPages(pages, pages', s) && SplitSpans(spans, spans', s)
    requires p in pages && p != s.x && p != s.q && p != s.r
    ensures SameHashes(pages, pages', pages[p].children)
  {
    hide Shape, IsChild;
    forall c | c in pages[p].children ensures c in pages && c in pages' && pages'[c].hash == pages[c].hash {
      OnlyParent(pages, spans, root, height, p, c);
    }
  }

  /** Recomputing the hash of the page on the path at a level moves the pending path up one level. */
  function Rehashed(pages: Pages, p: int): Pages
    requires p in pages
  {
    pages[p := pages[p].(hash := PageHash(pages, pages[p]))]
  }

  lemma RehashKeepsShape(pages: Pages, spans: Spans, root: int, height: int, p: int)
    requires Shape(pages, spans, root, height) && p in pages
    ensures Shape(Rehashed(pages, p), spans, root, height)
  {
    hide Shape, PageOK, Placed, PageHash;
    var pages' := Rehashed(pages, p);
    ShapeDomain(pages, spans, root, height);
    forall x | x in pages' ensures PageOK(pages', spans, x) && Placed(pages', spans, root, height, x) {
      PageAt(pages, spans, root, height, x);
      RehashedPage(pages, spans, root, height, p, x);
    }
    ShapeIs(pages', spans, root, height);
  }

  lemma RehashedPage(pages: Pages, spans: Spans, root: int, height: int, p: int, x: int)
    requires p in pages && x in pages && x in spans && PageOK(pages, spans, x) && Placed(pages, spans, root, height, x)
    ensures PageOK(Rehashed(pages, p), spans, x) && Placed(Rehashed(pages, p), spans, root, height, x)
  {
    hide PageHash, KeysSorted, Covers, StrictlyIn;
    var pages' := Rehashed(pages, p);
    if !pages[x].isLeaf {
      forall i | 0 <= i < |pages[x].children| ensures ChildOK(pages', spans, x, i) {
        assert ChildOK(pages, spans, x, i);
      }
    }
  }

  lemma RehashTracked(before: Pages, pages: Pages, spans: Spans, root: int, height: int, p: int, anchor: LocatorKey,
                      updates: set<int>)
    requires Shape(pages, spans, root, height) && p in pages && p in spans && Covers(spans[p], anchor)
    requires Track(before, pages, spans, anchor, spans[p].level, updates)
    ensures Track(before, Rehashed(pages, p), spans, anchor, spans[p].level + 1, updates + {p})
  {
    hide Shape, Covers, HashOK, Unchanged, PageHash;
    var pages', level := Rehashed(pages, p), spans[p].level;
    forall x | x in pages' && x in spans && !Pending(spans, anchor, level + 1, x)
      ensures HashOK(pages', x) && (x !in updates + {p} ==> Unchanged(before, pages', x))
    {
      RehashedTrack(before, pages, spans, root, height, p, anchor, updates, x);
    }
  }

  lemma RehashedTrack(before: Pages, pages: Pages, spans: Spans, root: int, height: int, p: int, anchor: LocatorKey,
                      updates: set<int>, x: int)
    requires Shape(pages, spans, root, height) && p in pages && p in spans && Covers(spans[p], anchor)
    requires Track(before, pages, spans, anchor, spans[p].level, updates)
    requires x in pages && x in spans && !Pending(spans, anchor, spans[p].level + 1, x)
    ensures HashOK(Rehashed(pages, p), x) && (x !in updates + {p} ==> Unchanged(before, Rehashed(pages, p), x))
  {
    hide Shape, Covers, HashOK, SameHashes, PageHash;
    var pages' := Rehashed(pages, p);
    if x == p {
      assert SameHashes(pages, pages', pages[p].children) by { hide *; NotOwnChild(pages, spans, root, height, p); }
      OwnHash(pages, p);
    } else {
      if Covers(spans[x], anchor) && spans[x].level == spans[p].level {
        OnePage(pages, spans, root, height, x, p, anchor);
      }
      assert SameHashes(pages, pages', pages[x].children) by {
        hide *;
        NotParent(pages, spans, root, height, p, anchor, x);
      }
      SameHash(pages, pages', x);
      if x !in updates { SameHashesThrough(before, pages, pages', pages[x].children); }
    }
  }

  lemma NotOwnChild(pages: Pages, spans: Spans, root: int, height: int, p: int)
    requires Shape(pages, spans, root, height) && p in pages
    ensures SameHashes(pages, Rehashed(pages, p), pages[p].children)
  {
    hide Shape, PageHash;
    forall c | c in pages[p].children ensures c in pages && c != p {
      OnlyParent(pages, spans, root, height, p, c);
      NotOwnParent(pages, spans, root, height, p);
    }
  }

  lemma NotOwnParent(pages: Pages, spans: Spans, root: int, height: int, p: int)
    requires Shape(pages, spans, root, height) && p in pages
    ensures pages[p].parent != Some(p)
  {
    hide Shape, PageOK;
    PageAt(pages, spans, root, height, p);
    if p != root { var i := ParentOf(pages, spans, root, height, p); }
  }

  lemma OwnHash(pages: Pages, p: int)
    requires p in pages && SameHashes(pages, Rehashed(pages, p), pages[p].children)
    ensures HashOK(Rehashed(pages, p), p)
  {
    var pages', children := Rehashed(pages, p), pages[p].children;
    forall i | 0 <= i < |children| ensures ChildHashes(pages', children)[i] == ChildHashes(pages, children)[i] {
      var c := children[i];
      assert c in children;
    }
    assert ChildHashes(pages', children) == ChildHashes(pages, children);
  }

  /** The page is a child of the next page on the path only. */
  lemma NotParent(pages: Pages, spans: Spans, root: int, height: int, p: int, anchor: LocatorKey, x: int)
    requires Shape(pages, spans, root, height) && p in pages && p in spans && Covers(spans[p], anchor)
    requires x in pages && x in spans && !Pending(spans, anchor, spans[p].level + 1, x)
    ensures SameHashes(pages, Rehashed(pages, p), pages[x].children)
  {
    hide Shape, PageHash, Covers;
    forall c | c in pages[x].children ensures c in pages && c != p {
      OnlyParent(pages, spans, root, height, x, c);
      if c == p { PathUp(pages, spans, root, height, p, anchor); }
    }
  }

  // ---- Entries ----

  ghost predicate EntryAt(pages: Pages, p: int, i: int, k: LocatorKey, v: Option<LocatorValue>) {
    p in pages && pages[p].isLeaf && 0 <= i < |pages[p].keys| && i < |pages[p].values| && pages[p].keys[i] == k
    && pages[p].values[i] == v
  }

  /** Some leaf holds the entry. */
  ghost predicate HasEntry(pages: Pages, k: LocatorKey, v: Option<LocatorValue>) {
    exists p, i :: EntryAt(pages, p, i, k, v)
  }

  /** The same entries, and no page lost. */
  ghost predicate SameEntries(pages: Pages, pages': Pages) {
    (forall p :: p in pages ==> p in pages') && forall k, v :: HasEntry(pages, k, v) <==> HasEntry(pages', k, v)
  }

  /** Splitting a leaf moves entries, splitting an internal page does not touch them. */
  lemma LeafSplitEntries(pages: Pages, spans: Spans, pages': Pages, spans': Spans, s: Split, mid: nat)
    requires LeafSplitStep(pages, spans, pages', spans', s, mid)
    ensures SameEntries(pages, pages')
  {
    hide SplitSpans;
    forall k, v | HasEntry(pages, k, v) ensures HasEntry(pages', k, v) {
      var p, i :| EntryAt(pages, p, i, k, v);
      if p != s.x { assert EntryAt(pages', p, i, k, v); }
      else if i < mid { assert EntryAt(pages', s.x, i, k, v); }
      else { assert EntryAt(pages', s.r, i - mid, k, v); }
    }
    forall k, v | HasEntry(pages', k, v) ensures HasEntry(pages, k, v) {
      var p, i :| EntryAt(pages', p, i, k, v);
      assert EntryAt(pages, if p == s.r then s.x else p, if p == s.r then mid + i else i, k, v);
    }
  }

  lemma InnerSplitEntries(pages: Pages, spans: Spans, pages': Pages, spans': Spans, s: Split, mid: nat)
    requires InnerSplitStep(pages, spans, pages', spans', s, mid)
    ensures SameEntries(pages, pages')
  {
    hide SplitSpans;
    forall k, v | HasEntry(pages, k, v) ensures HasEntry(pages', k, v) {
      var p, i :| EntryAt(pages, p, i, k, v);
      assert EntryAt(pages', p, i, k, v);
    }
    forall k, v | HasEntry(pages', k, v) ensures HasEntry(pages, k, v) {
      var p, i :| EntryAt(pages', p, i, k, v);
      assert EntryAt(pages, p, i, k, v);
    }
  }

  lemma EntriesThrough(a: Pages, b: Pages, c: Pages)
    requires SameEntries(a, b) && SameEntries(b, c)
    ensures SameEntries(a, c)
  {}

  /** Adding an entry to a leaf adds just that entry. */
  lemma EntryAdded(pages: Pages, x: int, idx: nat, key: LocatorKey, value: Option<LocatorValue>)
    requires x in pages && pages[x].isLeaf && |pages[x].keys| == |pages[x].values| && idx <= |pages[x].keys|
    ensures forall k, v :: HasEntry(pages[x := WithEntry(pages[x], idx, key, value)], k, v) <==>
      HasEntry(pages, k, v) || (k == key && v == value)
  {
    var pages' := pages[x := WithEntry(pages[x], idx, key, value)];
    assert EntryAt(pages', x, idx, key, value);
    forall k, v | HasEntry(pages, k, v) ensures HasEntry(pages', k, v) {
      var p, i :| EntryAt(pages, p, i, k, v);
      assert EntryAt(pages', p, if p == x && i >= idx then i + 1 else i, k, v);
    }
    forall k, v | HasEntry(pages', k, v) ensures HasEntry(pages, k, v) || (k == key && v == value) {
      var p, i :| EntryAt(pages', p, i, k, v);
      if !(p == x && i == idx) { assert EntryAt(pages, p, if p == x && i > idx then i - 1 else i, k, v); }
    }
  }

  /** A key of a leaf is in its interval, so an entry is found in one leaf only. */
  lemma EntryUnique(pages: Pages, spans: Spans, root: int, height: int, p: int, i: int, q: int, j: int, k: LocatorKey,
                    v: Option<LocatorValue>, w: Option<LocatorValue>)
    requires Shape(pages, spans, root, height) && EntryAt(pages, p, i, k, v) && EntryAt(pages, q, j, k, w)
    ensures p == q && i == j && v == w
  {
    hide Shape, InnerOK, KeyLess, NextOK, Placed, Covers;
    PageAt(pages, spans, root, height, p);
    PageAt(pages, spans, root, height, q);
    OnePage(pages, spans, root, height, p, q, k);
    KeyAtOnce(pages[p].keys, i, j);
  }

  lemma KeyAtOnce(keys: seq<LocatorKey>, i: int, j: int)
    requires KeysSorted(keys) && 0 <= i < |keys| && 0 <= j < |keys| && keys[i] == keys[j]
    ensures i == j
  {
    hide KeysSorted;
    if i < j { KeysDiffer(keys, i, j); }
    if j < i { KeysDiffer(keys, j, i); }
  }

  lemma KeysDiffer(keys: seq<LocatorKey>, i: int, j: int)
    requires KeysSorted(keys) && 0 <= i < j < |keys|
    ensures keys[i] != keys[j]
  {
    hide KeyLess;
    KeyOrder();
    assert KeyLess(keys[i], keys[j]);
  }
}
