/** The state of an insertion while pages are being split (internal/all/locator_tree.go): a page
    has been cut in two, and its parent does not know the right half yet. */
module LocatorSplits {
  import opened Hashing
  import opened LocatorKeys
  import opened LocatorPages
  import opened LocatorSteps
  import opened LocatorTracking

  function IndexIn(s: seq<int>, x: int): (i: nat)
    requires x in s
    ensures i < |s| && s[i] == x && forall j :: 0 <= j < i ==> s[j] != x
  {
    if s[0] == x then 0 else
      assert s == [s[0]] + s[1..];
      1 + IndexIn(s[1..], x)
  }

  /** No page has too many or, but for the root, too few keys, except one that is about to be split. */
  ghost predicate Sized(pages: Pages, order: int, except: Option<int>) {
    forall p :: p in pages && except != Some(p) ==> SizeOK(pages[p], order)
  }

  predicate SizeOK(page: Page, order: int) {
    |page.keys| < order && (!page.isLeaf ==> page.keys != []) && (page.parent.Some? ==> HalfFull(page, order))
  }

  /** What is left of a page that is split. */
  predicate HalfFull(page: Page, order: int) {
    |page.keys| >= if page.isLeaf then order / 2 else (order - 1) / 2
  }

  /** An internal page that may have to be split: with at most one key too many, and not too few. */
  predicate Splittable(page: Page, order: int) {
    !page.isLeaf && 0 < |page.keys| <= order && (page.parent.Some? ==> HalfFull(page, order))
  }

  /** What holds throughout an insertion. */
  ghost predicate Mid(before: Pages, base: Pages, pages: Pages, spans: Spans, root: int, height: int, next: int,
                      order: int, anchor: LocatorKey, updates: set<int>, except: Option<int>) {
    && Shape(pages, spans, root, height) && height >= 0 && order >= 3
    && (forall p :: p in pages ==> p < next)
    && Track(before, pages, spans, anchor, 0, updates) && (forall p :: p in updates ==> p in pages)
    && SameEntries(base, pages) && Sized(pages, order, except)
  }

  // ---- The parent that is to take the pair ----

  predicate IsRootPage(pages: Pages, cur: int)
    requires cur in pages
  {
    pages[cur].parent.None?
  }

  function ParentID(pages: Pages, cur: int, next: int): int
    requires cur in pages
  {
    if IsRootPage(pages, cur) then next else pages[cur].parent.value
  }

  function RootHashOf(pages: Pages, cur: int, right: int, sep: LocatorKey): Digest
    requires cur in pages && right in pages
  {
    H(InternalPage([sep], [pages[cur].hash, pages[right].hash]))
  }

  predicate Pairable(pages: Pages, cur: int, right: int) {
    && cur in pages && right in pages && cur != right
    && (pages[cur].parent.Some? ==>
          var q := pages[cur].parent.value;
          q in pages && q != cur && q != right && cur in pages[q].children
          && IndexIn(pages[q].children, cur) <= |pages[q].keys|)
  }

  /** The pages after the parent has taken the pair: an old parent, or a new root. */
  function Paired(pages: Pages, cur: int, right: int, sep: LocatorKey, next: int): Pages
    requires Pairable(pages, cur, right)
  {
    if IsRootPage(pages, cur) then
      pages[cur := pages[cur].(parent := Some(next))][right := pages[right].(parent := Some(next))]
           [next := Page(next, RootHashOf(pages, cur, right, sep), false, [sep], [], None, [cur, right], None)]
    else
      var q := pages[cur].parent.value;
      pages[q := WithPair(pages[q], IndexIn(pages[q].children, cur), sep, right)]
  }

  function PairedSpans(pages: Pages, spans: Spans, cur: int, height: int, next: int): Spans
    requires cur in pages
  {
    if IsRootPage(pages, cur) then GrownSpans(spans, next, height) else spans
  }

  // ---- The tree before the cut, with a new root above it if need be ----

  function Base(pages: Pages, x: int, next: int, hash: Digest): Pages
    requires x in pages
  {
    if IsRootPage(pages, x) then Grown(pages, x, next, hash) else pages
  }

  function BaseIdx(pages: Pages, x: int): nat
    requires x in pages
      && (pages[x].parent.Some? ==> pages[x].parent.value in pages && x in pages[pages[x].parent.value].children)
  {
    if IsRootPage(pages, x) then 0 else IndexIn(pages[pages[x].parent.value].children, x)
  }

  function BaseRoot(pages: Pages, x: int, root: int, next: int): int
    requires x in pages
  {
    if IsRootPage(pages, x) then next else root
  }

  function BaseHeight(pages: Pages, x: int, height: int): int
    requires x in pages
  {
    if IsRootPage(pages, x) then height + 1 else height
  }

  lemma BaseReady(before: Pages, base: Pages, pages: Pages, spans: Spans, root: int, height: int, next: int, order: int,
                  anchor: LocatorKey, updates: set<int>, x: int, newRoot: int, hash: Digest)
    requires Mid(before, base, pages, spans, root, height, next, order, anchor, updates, Some(x))
    requires x in pages && pages[x].keys != [] && newRoot >= next
    ensures x in spans
      && (pages[x].parent.Some? ==> pages[x].parent.value in pages && x in pages[pages[x].parent.value].children)
    ensures var b, bs := Base(pages, x, newRoot, hash), PairedSpans(pages, spans, x, height, newRoot);
      && Shape(b, bs, BaseRoot(pages, x, root, newRoot), BaseHeight(pages, x, height))
      && Track(before, b, bs, anchor, 0, updates) && SameEntries(base, b)
      && IsChild(b, ParentID(pages, x, newRoot), BaseIdx(pages, x), x) && ParentID(pages, x, newRoot) != x
      && x in b && x in bs && b[x] == pages[x].(parent := Some(ParentID(pages, x, newRoot))) && bs[x] == spans[x]
  {
    hide Shape, PageOK, Track, SameEntries, Sized;
    ShapeDomain(pages, spans, root, height);
    PageAt(pages, spans, root, height, x);
    if IsRootPage(pages, x) {
      GrowKeepsShape(pages, spans, root, height, newRoot, hash);
      GrowTracked(before, pages, spans, root, height, anchor, updates, newRoot, hash);
      GrowEntries(pages, root, newRoot, hash);
      EntriesThrough(base, pages, Grown(pages, x, newRoot, hash));
    } else {
      var i := ParentOf(pages, spans, root, height, x);
      InnerSizes(pages, spans, pages[x].parent.value);
    }
  }

  lemma InnerSizes(pages: Pages, spans: Spans, q: int)
    requires q in pages && q in spans && PageOK(pages, spans, q) && !pages[q].isLeaf
    ensures |pages[q].children| == |pages[q].keys| + 1
  {}

  lemma GrowTracked(before: Pages, pages: Pages, spans: Spans, root: int, height: int, anchor: LocatorKey,
                    updates: set<int>, newRoot: int, hash: Digest)
    requires Shape(pages, spans, root, height) && Track(before, pages, spans, anchor, 0, updates) && newRoot !in pages
    requires height >= 0
    requires root in pages
    ensures Track(before, Grown(pages, root, newRoot, hash), GrownSpans(spans, newRoot, height), anchor, 0, updates)
  {
    hide Shape, PageOK, HashOK, Unchanged;
    var pages', spans' := Grown(pages, root, newRoot, hash), GrownSpans(spans, newRoot, height);
    PageAt(pages, spans, root, height, root);
    forall p | p in pages' && p in spans' && !Pending(spans', anchor, 0, p)
      ensures HashOK(pages', p) && (p !in updates ==> Unchanged(before, pages', p))
    {
      GrownUnchanged(before, pages, spans, root, height, newRoot, hash, p);
    }
  }

  lemma GrownUnchanged(before: Pages, pages: Pages, spans: Spans, root: int, height: int, newRoot: int, hash: Digest,
                       p: int)
    requires Shape(pages, spans, root, height) && newRoot !in pages && root in pages && p in pages && p != root
    requires HashOK(pages, p)
    ensures HashOK(Grown(pages, root, newRoot, hash), p)
    ensures Unchanged(before, pages, p) ==> Unchanged(before, Grown(pages, root, newRoot, hash), p)
  {
    hide Shape, HashOK;
    var pages' := Grown(pages, root, newRoot, hash);
    forall c | c in pages[p].children ensures c in pages && c in pages' && pages'[c].hash == pages[c].hash {
      OnlyParent(pages, spans, root, height, p, c);
    }
    SameHash(pages, pages', p);
    if Unchanged(before, pages, p) { SameHashesThrough(before, pages, pages', pages[p].children); }
  }

  lemma GrowEntries(pages: Pages, root: int, newRoot: int, hash: Digest)
    requires root in pages && newRoot !in pages
    ensures SameEntries(pages, Grown(pages, root, newRoot, hash))
  {
    var pages' := Grown(pages, root, newRoot, hash);
    forall k, v | HasEntry(pages, k, v) ensures HasEntry(pages', k, v) {
      var p, i :| EntryAt(pages, p, i, k, v);
      assert EntryAt(pages', p, i, k, v);
    }
    forall k, v | HasEntry(pages', k, v) ensures HasEntry(pages, k, v) {
      var p, i :| EntryAt(pages', p, i, k, v);
      assert EntryAt(pages, p, i, k, v);
    }
  }

  // ---- A page cut in two ----

  /** The parent still has to take the pair (cur, right). */
  ghost predicate PairMid(before: Pages, base: Pages, pages: Pages, spans: Spans, root: int, height: int, next: int,
                          order: int, anchor: LocatorKey, updates: set<int>, cur: int, right: int, sep: LocatorKey) {
    && Pairable(pages, cur, right) && (forall p :: p in pages ==> p < next) && (forall p :: p in updates ==> p in pages)
    && cur in updates && right in updates && (forall p :: p in pages <==> p in spans)
    && var after, q := Paired(pages, cur, right, sep, next), ParentID(pages, cur, next);
      && Mid(before, base, after, PairedSpans(pages, spans, cur, height, next), BaseRoot(pages, cur, root, next),
             BaseHeight(pages, cur, height), if IsRootPage(pages, cur) then next + 1 else next, order, anchor, updates,
             Some(q))
      && q in after && Splittable(after[q], order)
      && q in PairedSpans(pages, spans, cur, height, next)
      && Covers(PairedSpans(pages, spans, cur, height, next)[q], anchor)
  }

  function CutSpans(spans: Spans, x: int, right: int, sep: LocatorKey): Spans
    requires x in spans
  {
    spans[x := Span(spans[x].level, spans[x].lo, Some(sep))][right := Span(spans[x].level, Some(sep), spans[x].hi)]
  }

  function CutLeaf(pages: Pages, x: int, mid: nat, right: int, leftHash: Digest, rightHash: Digest): Pages
    requires x in pages && mid <= |pages[x].keys| == |pages[x].values|
  {
    pages[x := LeftLeaf(pages[x], mid, right, leftHash)][right := RightLeaf(pages[x], mid, right, rightHash)]
  }

  /** The children's parent becomes `right`. */
  function Adopted(pages: Pages, children: seq<int>, right: int): (r: Pages)
    ensures forall p :: p in r <==> p in pages
    ensures forall p :: p in r ==> r[p] == if p in children then pages[p].(parent := Some(right)) else pages[p]
  {
    map p | p in pages :: if p in children then pages[p].(parent := Some(right)) else pages[p]
  }

  function CutInner(pages: Pages, x: int, mid: nat, right: int, leftHash: Digest, rightHash: Digest): Pages
    requires x in pages && mid < |pages[x].keys| && |pages[x].children| == |pages[x].keys| + 1
  {
    Adopted(pages, pages[x].children[mid + 1..], right)
      [x := LeftInner(pages[x], mid, leftHash)][right := RightInner(pages[x], mid, right, rightHash)]
  }

  /** A page being cut: on the path, with exactly one key too many. */
  ghost predicate Overfull(before: Pages, base: Pages, pages: Pages, spans: Spans, root: int, height: int, next: int,
                           order: int, anchor: LocatorKey, updates: set<int>, x: int) {
    && Mid(before, base, pages, spans, root, height, next, order, anchor, updates, Some(x))
    && x in pages && x in spans && |pages[x].keys| == order && Covers(spans[x], anchor)
  }

  /** `cut` is `pages` with `x` cut in two, its parent not changed yet. */
  ghost predicate Halves(pages: Pages, cut: Pages, x: int, right: int, moved: set<int>) {
    && x in pages && right !in pages && (forall p :: p in cut <==> p in pages || p == right)
    && cut[x].parent == cut[right].parent == pages[x].parent && cut[x].isLeaf == cut[right].isLeaf == pages[x].isLeaf
    && cut[x].keys != [] && cut[right].keys != []
    && (forall p :: p in moved ==>
        p in pages && p != x && pages[p].parent == Some(x) && cut[p] == pages[p].(parent := Some(right)))
    && (forall p :: p in pages && p != x && p !in moved ==> cut[p] == pages[p])
  }

  /** The split that completes a cut. */
  function SplitFor(pages: Pages, x: int, right: int, newRoot: int, sep: LocatorKey, moved: set<int>): Split
    requires x in pages
      && (pages[x].parent.Some? ==> pages[x].parent.value in pages && x in pages[pages[x].parent.value].children)
  {
    Split(x, right, ParentID(pages, x, newRoot), BaseIdx(pages, x), sep, moved)
  }

  lemma CutSplitsSpans(pages: Pages, spans: Spans, cut: Pages, x: int, height: int, right: int, newRoot: int,
                       sep: LocatorKey, moved: set<int>)
    requires Halves(pages, cut, x, right, moved) && x in spans && right !in spans && newRoot !in spans
    requires right != newRoot
    requires pages[x].parent.Some? ==> pages[x].parent.value in pages && x in pages[pages[x].parent.value].children
    ensures SplitSpans(PairedSpans(pages, spans, x, height, newRoot),
                       PairedSpans(cut, CutSpans(spans, x, right, sep), x, height, newRoot),
                       SplitFor(pages, x, right, newRoot, sep, moved))
  {}

  lemma CutSplitsPages(pages: Pages, cut: Pages, x: int, right: int, newRoot: int, sep: LocatorKey, moved: set<int>)
    requires Halves(pages, cut, x, right, moved) && newRoot !in pages && right != newRoot
    requires pages[x].parent.Some? ==>
      var q := pages[x].parent.value;
      q in pages && q != x && !pages[q].isLeaf && x in pages[q].children && |pages[q].children| == |pages[q].keys| + 1
      && pages[q].parent != Some(x)
    ensures Pairable(cut, x, right)
    ensures SplitPages(Base(pages, x, newRoot, RootHashOf(cut, x, right, sep)), Paired(cut, x, right, sep, newRoot),
                       SplitFor(pages, x, right, newRoot, sep, moved))
  {
    if pages[x].parent.Some? {
      var q := pages[x].parent.value;
      assert q !in moved && cut[q] == pages[q];
      var i :| 0 <= i < |pages[q].children| && pages[q].children[i] == x;
      OldParentPair(pages, cut, x, right, newRoot, sep, moved);
    } else {
      NewRootPair(pages, cut, x, right, newRoot, sep, moved);
    }
  }

  lemma OldParentPair(pages: Pages, cut: Pages, x: int, right: int, newRoot: int, sep: LocatorKey, moved: set<int>)
    requires Halves(pages, cut, x, right, moved) && pages[x].parent.Some?
    requires var q := pages[x].parent.value;
      q in pages && q != x && !pages[q].isLeaf && x in pages[q].children && |pages[q].children| == |pages[q].keys| + 1
      && q !in moved
    ensures Pairable(cut, x, right)
    ensures SplitPages(pages, Paired(cut, x, right, sep, newRoot), SplitFor(pages, x, right, newRoot, sep, moved))
  {}

  lemma NewRootPair(pages: Pages, cut: Pages, x: int, right: int, newRoot: int, sep: LocatorKey, moved: set<int>)
    requires Halves(pages, cut, x, right, moved) && pages[x].parent.None? && newRoot !in pages && right != newRoot
    ensures Pairable(cut, x, right)
    ensures SplitPages(Grown(pages, x, newRoot, RootHashOf(cut, x, right, sep)), Paired(cut, x, right, sep, newRoot),
                       SplitFor(pages, x, right, newRoot, sep, moved))
  {
    var b, after := Grown(pages, x, newRoot, RootHashOf(cut, x, right, sep)), Paired(cut, x, right, sep, newRoot);
    assert WithPair(b[newRoot], 0, sep, right).keys == [sep]
      && WithPair(b[newRoot], 0, sep, right).children == [x, right];
    assert after[newRoot] == WithPair(b[newRoot], 0, sep, right);
  }

  /** What BaseReady and the two lemmas above need of the page being cut. */
  lemma CutParent(pages: Pages, spans: Spans, root: int, height: int, x: int)
    requires Shape(pages, spans, root, height) && x in pages
    ensures x in spans && (pages[x].parent.Some? ==>
      var q := pages[x].parent.value;
      && q in pages && q != x && !pages[q].isLeaf && x in pages[q].children
      && |pages[q].children| == |pages[q].keys| + 1
      && pages[q].parent != Some(x))
  {
    hide Shape, PageOK;
    PageAt(pages, spans, root, height, x);
    if x != root {
      var q := pages[x].parent.value;
      var i := ParentOf(pages, spans, root, height, x);
      InnerSizes(pages, spans, q);
      PageAt(pages, spans, root, height, q);
      if q != root { var j := ParentOf(pages, spans, root, height, q); }
    }
  }

  /** From a split of the tree with its new root to the state that InsertParent starts from. */
  lemma CutReady(before: Pages, base: Pages, pages: Pages, spans: Spans, root: int, height: int, next: int, order: int,
                 anchor: LocatorKey, updates: set<int>, x: int, cut: Pages, sep: LocatorKey, moved: set<int>)
    requires Overfull(before, base, pages, spans, root, height, next, order, anchor, updates, x) && x in spans
    requires Halves(pages, cut, x, next, moved) && SizeOK(cut[x], order) && SizeOK(cut[next], order)
    requires HalfFull(cut[x], order) && HalfFull(cut[next], order) && Pairable(cut, x, next)
    requires var after, spans' := Paired(cut, x, next, sep, next + 1),
      PairedSpans(cut, CutSpans(spans, x, next, sep), x, height, next + 1);
      && Shape(after, spans', BaseRoot(pages, x, root, next + 1), BaseHeight(pages, x, height))
      && Track(before, after, spans', anchor, 0, updates + {x, next} + moved) && SameEntries(base, after)
    ensures PairMid(before, base, cut, CutSpans(spans, x, next, sep), root, height, next + 1, order, anchor,
                    updates + {x, next} + moved,
                    x, next, sep)
  {
    hide Shape, PageOK, Track, SameEntries, KeyLess, Covers, SplitPages, SplitSpans, WithPair;
    CutParent(pages, spans, root, height, x);
    ShapeDomain(pages, spans, root, height);
    var q := ParentID(pages, x, next + 1);
    assert q == ParentID(cut, x, next + 1);
    if pages[x].parent.Some? { PathUp(pages, spans, root, height, x, anchor); }
    PairedSizes(pages, cut, x, next, sep, order, moved);
    CoversAll(anchor, Span(height + 1, None, None));
  }

  lemma CoversAll(k: LocatorKey, span: Span)
    requires span.lo.None? && span.hi.None?
    ensures Covers(span, k)
  {}

  lemma PairedSizes(pages: Pages, cut: Pages, x: int, right: int, sep: LocatorKey, order: int, moved: set<int>)
    requires Halves(pages, cut, x, right, moved) && Sized(pages, order, Some(x)) && SizeOK(cut[x], order)
    requires SizeOK(cut[right], order) && HalfFull(cut[x], order) && HalfFull(cut[right], order)
    requires Pairable(cut, x, right) && order >= 3 && right + 1 !in pages
    requires pages[x].parent.Some? ==>
      var q := pages[x].parent.value; q in pages && q != x && q !in moved && !pages[q].isLeaf
    ensures var after, q := Paired(cut, x, right, sep, right + 1), ParentID(cut, x, right + 1);
      Sized(after, order, Some(q)) && q in after && Splittable(after[q], order)
  {}

  /** After a leaf is cut, giving its parent the pair restores the tree. */
  lemma LeafCut(before: Pages, base: Pages, pages: Pages, spans: Spans, root: int, height: int, next: int, order: int,
                anchor: LocatorKey, updates: set<int>, x: int, leftHash: Digest)
    requires Overfull(before, base, pages, spans, root, height, next, order, anchor, updates, x)
    requires pages[x].isLeaf && |pages[x].values| == |pages[x].keys| && anchor == pages[x].keys[0]
    ensures var mid, page := order / 2, pages[x];
      var cut := CutLeaf(pages, x, mid, next, leftHash,
                         H(LeafPage(next, page.next, page.keys[mid..], page.values[mid..])));
      PairMid(before, base, cut, CutSpans(spans, x, next, page.keys[mid]), root, height, next + 1, order, anchor,
              updates + {x, next},
              x, next, page.keys[mid])
  {
    hide Shape, PageOK, Placed, Track, SameEntries, KeyLess, HashOK, Paired, Pairable, Base, PairedSpans, CutSpans,
      BaseIdx, BaseRoot, BaseHeight, SplitPages, SplitSpans, Sized, Halves, SplitFor, PairMid, IsChild;
    var mid, page, r := order / 2, pages[x], next;
    var cut := CutLeaf(pages, x, mid, r, leftHash, H(LeafPage(r, page.next, page.keys[mid..], page.values[mid..])));
    var sep, hash := page.keys[mid], RootHashOf(cut, x, r, page.keys[mid]);
    ShapeDomain(pages, spans, root, height);
    CutParent(pages, spans, root, height, x);
    BaseReady(before, base, pages, spans, root, height, next, order, anchor, updates, x, next + 1, hash);
    LeafHalvesCut(pages, x, mid, r, leftHash, H(LeafPage(r, page.next, page.keys[mid..], page.values[mid..])));
    CutSplitsSpans(pages, spans, cut, x, height, r, next + 1, sep, {});
    CutSplitsPages(pages, cut, x, r, next + 1, sep, {});
    LeafCutTree(before, base, pages, spans, root, height, next, order, anchor, updates, x, cut, hash);
    assert updates + {x, next} + {} == updates + {x, next};
    CutReady(before, base, pages, spans, root, height, next, order, anchor, updates, x, cut, sep, {});
  }

  lemma LeafHalvesCut(pages: Pages, x: int, mid: nat, r: int, leftHash: Digest, rightHash: Digest)
    requires x in pages && r !in pages && 0 < mid < |pages[x].keys| == |pages[x].values| && pages[x].isLeaf
    ensures Halves(pages, CutLeaf(pages, x, mid, r, leftHash, rightHash), x, r, {})
  {}

  lemma LeafCutTree(before: Pages, base: Pages, pages: Pages, spans: Spans, root: int, height: int, next: int,
                    order: int, anchor: LocatorKey, updates: set<int>, x: int, cut: Pages, hash: Digest)
    requires Overfull(before, base, pages, spans, root, height, next, order, anchor, updates, x)
    requires pages[x].isLeaf && |pages[x].values| == |pages[x].keys| && anchor == pages[x].keys[0]
    requires pages[x].parent.Some? ==> pages[x].parent.value in pages && x in pages[pages[x].parent.value].children
    requires var mid, page := order / 2, pages[x];
      && x in cut && next in cut && cut[x] == LeftLeaf(page, mid, next, cut[x].hash)
      && cut[next] == RightLeaf(page, mid, next, H(LeafPage(next, page.next, page.keys[mid..], page.values[mid..])))
      && Pairable(cut, x, next) && hash == RootHashOf(cut, x, next, page.keys[mid])
    requires var sep, b, bs := pages[x].keys[order / 2], Base(pages, x, next + 1, hash),
      PairedSpans(pages, spans, x, height, next + 1);
      var after, spans' := Paired(cut, x, next, sep, next + 1),
        PairedSpans(cut, CutSpans(spans, x, next, sep), x, height, next + 1);
      var s := SplitFor(pages, x, next, next + 1, sep, {});
      && SplitPages(b, after, s) && SplitSpans(bs, spans', s)
      && Shape(b, bs, BaseRoot(pages, x, root, next + 1), BaseHeight(pages, x, height))
      && Track(before, b, bs, anchor, 0, updates)
      && SameEntries(base, b) && x in b && x in bs && bs[x] == spans[x]
      && b[x] == pages[x].(parent := Some(ParentID(pages, x, next + 1)))
    ensures var sep := pages[x].keys[order / 2];
      var after, spans' := Paired(cut, x, next, sep, next + 1),
        PairedSpans(cut, CutSpans(spans, x, next, sep), x, height, next + 1);
      && Shape(after, spans', BaseRoot(pages, x, root, next + 1), BaseHeight(pages, x, height))
      && Track(before, after, spans', anchor, 0, updates + {x, next}) && SameEntries(base, after)
  {
    hide Shape, PageOK, Placed, Track, SameEntries, KeyLess, Base, BaseIdx, BaseRoot, BaseHeight, SplitSpans, Sized,
      HashOK;
    var mid, sep := order / 2, pages[x].keys[order / 2];
    var b, bs := Base(pages, x, next + 1, hash), PairedSpans(pages, spans, x, height, next + 1);
    var after, spans' := Paired(cut, x, next, sep, next + 1),
      PairedSpans(cut, CutSpans(spans, x, next, sep), x, height, next + 1);
    var s := SplitFor(pages, x, next, next + 1, sep, {});
    PairedHalves(pages, cut, x, next, sep, next + 1);
    assert LeafSplitStep(b, bs, after, spans', s, mid);
    LeafSplitKeepsShape(b, bs, after, spans', BaseRoot(pages, x, root, next + 1), BaseHeight(pages, x, height), s, mid);
    LeafSplitEntries(b, bs, after, spans', s, mid);
    EntriesThrough(base, b, after);
    LeafAnchor(b, bs, after, spans', s, mid, anchor, BaseRoot(pages, x, root, next + 1), BaseHeight(pages, x, height));
    SplitTracked(before, b, bs, after, spans', BaseRoot(pages, x, root, next + 1), BaseHeight(pages, x, height), s,
                 anchor, 0, updates,
                 updates + {x, next});
  }

  /** The halves keep their contents when the parent takes the pair. */
  lemma PairedHalves(pages: Pages, cut: Pages, x: int, right: int, sep: LocatorKey, newRoot: int)
    requires Pairable(cut, x, right) && newRoot != x && newRoot != right
    ensures var after, q := Paired(cut, x, right, sep, newRoot), ParentID(cut, x, newRoot);
      && after[x] == cut[x].(parent := Some(q))
      && (cut[right].parent == cut[x].parent ==> after[right] == cut[right].(parent := Some(q)))
  {}

  lemma LeafAnchor(b: Pages, bs: Spans, after: Pages, spans': Spans, s: Split, mid: nat, anchor: LocatorKey,
                   root: int, height: int)
    requires LeafSplitStep(b, bs, after, spans', s, mid) && Shape(after, spans', root, height)
    requires anchor == b[s.x].keys[0]
    requires after[s.r].hash == H(LeafPage(s.r, after[s.r].next, after[s.r].keys, after[s.r].values))
    ensures Covers(spans'[s.x], anchor) && HashOK(after, s.r) && bs[s.x].level == 0
  {
    hide Shape, InnerOK, Placed, KeysSorted, Covers, NextOK;
    PageAt(after, spans', root, height, s.x);
    assert Covers(spans'[s.x], after[s.x].keys[0]);
  }

  /** The page `x` with its upper children handed over to `right`. */
  function CutInnerOf(pages: Pages, x: int, mid: nat, right: int): Pages
    requires x in pages && mid < |pages[x].keys| && |pages[x].children| == |pages[x].keys| + 1
  {
    CutInner(pages, x, mid, right,
             H(InternalPage(pages[x].keys[..mid], ChildHashes(pages, pages[x].children[..mid + 1]))),
             H(InternalPage(pages[x].keys[mid + 1..], ChildHashes(pages, pages[x].children[mid + 1..]))))
  }

  function Moved(page: Page, mid: nat): set<int>
    requires mid + 1 <= |page.children|
  {
    var upper := page.children[mid + 1..];
    set c | c in upper
  }

  /** After an internal page is cut, giving its parent the pair restores the tree. */
  lemma InnerCut(before: Pages, base: Pages, pages: Pages, spans: Spans, root: int, height: int, next: int, order: int,
                 anchor: LocatorKey, updates: set<int>, x: int)
    requires Overfull(before, base, pages, spans, root, height, next, order, anchor, updates, x)
    requires !pages[x].isLeaf && |pages[x].children| == |pages[x].keys| + 1
    ensures var mid := order / 2;
      PairMid(before, base, CutInnerOf(pages, x, mid, next), CutSpans(spans, x, next, pages[x].keys[mid]), root, height,
              next + 1, order, anchor,
              updates + {x, next} + Moved(pages[x], mid), x, next, pages[x].keys[mid])
  {
    hide Shape, PageOK, Placed, Track, SameEntries, KeyLess, HashOK, Paired, Pairable, Base, PairedSpans, CutSpans,
      BaseIdx, BaseRoot, BaseHeight, SplitPages, SplitSpans, Sized, Halves, SplitFor, PairMid, IsChild, CutInnerOf,
      Moved;
    var mid, page, r := order / 2, pages[x], next;
    var cut, sep, moved := CutInnerOf(pages, x, mid, r), page.keys[mid], Moved(page, mid);
    ShapeDomain(pages, spans, root, height);
    CutParent(pages, spans, root, height, x);
    InnerHalvesCut(pages, spans, root, height, x, mid, r);
    HalvesDomain(pages, cut, x, r, moved);
    var hash := RootHashOf(cut, x, r, sep);
    BaseReady(before, base, pages, spans, root, height, next, order, anchor, updates, x, next + 1, hash);
    CutSplitsSpans(pages, spans, cut, x, height, r, next + 1, sep, moved);
    CutSplitsPages(pages, cut, x, r, next + 1, sep, moved);
    InnerCutTree(before, base, pages, spans, root, height, next, order, anchor, updates, x, cut, hash);
    CutReady(before, base, pages, spans, root, height, next, order, anchor, updates, x, cut, sep, moved);
  }

  lemma HalvesDomain(pages: Pages, cut: Pages, x: int, right: int, moved: set<int>)
    requires Halves(pages, cut, x, right, moved)
    ensures x in cut && right in cut
  {}

  lemma InnerHalvesCut(pages: Pages, spans: Spans, root: int, height: int, x: int, mid: nat, r: int)
    requires Shape(pages, spans, root, height) && x in pages && r !in pages && 0 < mid < |pages[x].keys| - 1
    requires !pages[x].isLeaf
    requires |pages[x].children| == |pages[x].keys| + 1
    ensures Halves(pages, CutInnerOf(pages, x, mid, r), x, r, Moved(pages[x], mid))
    ensures var cut := CutInnerOf(pages, x, mid, r);
      |cut[x].keys| == mid && |cut[r].keys| == |pages[x].keys| - mid - 1 && !cut[x].isLeaf && !cut[r].isLeaf
  {
    hide Shape, ChildHashes;
    forall c | c in Moved(pages[x], mid) ensures c in pages && c != x && pages[c].parent == Some(x) {
      OnlyParent(pages, spans, root, height, x, c);
      NotOwnParent(pages, spans, root, height, x);
    }
  }

  lemma InnerCutTree(before: Pages, base: Pages, pages: Pages, spans: Spans, root: int, height: int, next: int,
                     order: int, anchor: LocatorKey, updates: set<int>, x: int, cut: Pages, hash: Digest)
    requires Overfull(before, base, pages, spans, root, height, next, order, anchor, updates, x)
    requires !pages[x].isLeaf && |pages[x].children| == |pages[x].keys| + 1
    requires pages[x].parent.Some? ==> pages[x].parent.value in pages && x in pages[pages[x].parent.value].children
    requires cut == CutInnerOf(pages, x, order / 2, next) && Pairable(cut, x, next)
    requires Halves(pages, cut, x, next, Moved(pages[x], order / 2))
    requires hash == RootHashOf(cut, x, next, pages[x].keys[order / 2])
    requires var sep, b, bs := pages[x].keys[order / 2], Base(pages, x, next + 1, hash),
      PairedSpans(pages, spans, x, height, next + 1);
      var after, spans' := Paired(cut, x, next, sep, next + 1),
        PairedSpans(cut, CutSpans(spans, x, next, sep), x, height, next + 1);
      var s := SplitFor(pages, x, next, next + 1, sep, Moved(pages[x], order / 2));
      && SplitPages(b, after, s) && SplitSpans(bs, spans', s)
      && Shape(b, bs, BaseRoot(pages, x, root, next + 1), BaseHeight(pages, x, height))
      && Track(before, b, bs, anchor, 0, updates)
      && SameEntries(base, b) && x in b && x in bs && bs[x] == spans[x]
      && b[x] == pages[x].(parent := Some(ParentID(pages, x, next + 1)))
    ensures var sep := pages[x].keys[order / 2];
      var after, spans' := Paired(cut, x, next, sep, next + 1),
        PairedSpans(cut, CutSpans(spans, x, next, sep), x, height, next + 1);
      && Shape(after, spans', BaseRoot(pages, x, root, next + 1), BaseHeight(pages, x, height))
      && Track(before, after, spans', anchor, 0, updates + {x, next} + Moved(pages[x], order / 2))
      && SameEntries(base, after)
  {
    hide Shape, PageOK, Placed, Track, SameEntries, KeyLess, Base, BaseIdx, BaseRoot, BaseHeight, SplitSpans, Sized,
      HashOK, ChildHashes;
    var mid, sep, moved := order / 2, pages[x].keys[order / 2], Moved(pages[x], order / 2);
    var b, bs := Base(pages, x, next + 1, hash), PairedSpans(pages, spans, x, height, next + 1);
    var after, spans' := Paired(cut, x, next, sep, next + 1),
      PairedSpans(cut, CutSpans(spans, x, next, sep), x, height, next + 1);
    var s := SplitFor(pages, x, next, next + 1, sep, moved);
    PairedHalves(pages, cut, x, next, sep, next + 1);
    assert InnerSplitStep(b, bs, after, spans', s, mid);
    InnerSplitKeepsShape(b, bs, after, spans', BaseRoot(pages, x, root, next + 1), BaseHeight(pages, x, height), s,
                         mid);
    InnerSplitEntries(b, bs, after, spans', s, mid);
    EntriesThrough(base, b, after);
    PairedHash(pages, spans, root, height, cut, x, mid, next, sep);
    NonNegativeLevel(pages, spans, root, height, x);
    SplitTracked(before, b, bs, after, spans', BaseRoot(pages, x, root, next + 1), BaseHeight(pages, x, height), s,
                 anchor, 0, updates,
                 updates + {x, next} + moved);
  }

  lemma NonNegativeLevel(pages: Pages, spans: Spans, root: int, height: int, x: int)
    requires Shape(pages, spans, root, height) && x in pages
    ensures x in spans && spans[x].level >= 0
  {
    hide Shape, Placed, Covers, KeysSorted, StrictlyIn, NextOK;
    PageAt(pages, spans, root, height, x);
  }

  /** Both halves of a cut internal page have the hash of their contents. */
  lemma PairedHash(pages: Pages, spans: Spans, root: int, height: int, cut: Pages, x: int, mid: nat, right: int,
                   sep: LocatorKey)
    requires Shape(pages, spans, root, height) && x in pages && !pages[x].isLeaf
    requires |pages[x].children| == |pages[x].keys| + 1
    requires 0 < mid < |pages[x].keys| - 1 && cut == CutInnerOf(pages, x, mid, right) && Pairable(cut, x, right)
    requires Halves(pages, cut, x, right, Moved(pages[x], mid)) && right + 1 !in pages
    ensures var after := Paired(cut, x, right, sep, right + 1);
      x in after && right in after && HashOK(after, x) && HashOK(after, right)
  {
    hide Shape, ChildHashes, Halves;
    var after := Paired(cut, x, right, sep, right + 1);
    forall c | c in pages[x].children ensures c in pages && c in after && after[c].hash == pages[c].hash {
      OnlyParent(pages, spans, root, height, x, c);
      NotOwnParent(pages, spans, root, height, x);
      ChildHashKept(pages, cut, x, right, sep, mid, c);
    }
    SameChildHashes(pages, after, pages[x].children[..mid + 1]);
    SameChildHashes(pages, after, pages[x].children[mid + 1..]);
  }

  lemma ChildHashKept(pages: Pages, cut: Pages, x: int, right: int, sep: LocatorKey, mid: nat, c: int)
    requires x in pages && mid + 1 <= |pages[x].children| && Halves(pages, cut, x, right, Moved(pages[x], mid))
    requires Pairable(cut, x, right)
    requires c in pages && c != x && right + 1 !in pages
    ensures c in Paired(cut, x, right, sep, right + 1) && Paired(cut, x, right, sep, right + 1)[c].hash == pages[c].hash
  {
    hide Moved;
  }

  lemma SameChildHashes(a: Pages, b: Pages, children: seq<int>)
    requires forall c :: c in children ==> c in a && c in b && a[c].hash == b[c].hash
    ensures ChildHashes(a, children) == ChildHashes(b, children)
  {
    forall i | 0 <= i < |children| ensures ChildHashes(a, children)[i] == ChildHashes(b, children)[i] {
      var c := children[i];
      assert c in children;
    }
  }
}
