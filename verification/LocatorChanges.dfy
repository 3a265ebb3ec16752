/** The pages an insertion returns are those it changed (internal/all/locator_tree.go:7-34). */
module LocatorChanges {
  import opened Hashing
  import opened LocatorKeys
  import opened LocatorPages
  import opened LocatorSteps
  import opened LocatorTracking
  import opened LocatorSplits

  /** A new page, or one that has more or fewer keys than before, or a new page as its parent. */
  predicate Touched(before: Pages, pages: Pages, p: int) {
    && p in pages
    && (p !in before || |pages[p].keys| != |before[p].keys|
        || (pages[p].parent.Some? && pages[p].parent.value !in before))
  }

  predicate SameBody(page: Page, page': Page) {
    page'.isLeaf == page.isLeaf && page'.keys == page.keys && page'.children == page.children
  }

  /** While pages are cut, only touched ones are listed, and no page changes but by gaining or losing keys. */
  ghost predicate Touching(before: Pages, pages: Pages, updates: set<int>) {
    && (forall p :: p in updates ==> Touched(before, pages, p))
    && forall p :: p in before ==>
         p in pages && (|pages[p].keys| == |before[p].keys| ==> SameBody(before[p], pages[p]))
  }

  /** Above a level no page has gained or lost a key yet. */
  ghost predicate AboveKept(before: Pages, pages: Pages, spans: Spans, level: int) {
    forall p :: p in before && p in spans && spans[p].level > level ==>
      p in pages && |pages[p].keys| == |before[p].keys|
  }

  /** A new page, or one with one key more than before. */
  predicate Gained(before: Pages, pages: Pages, x: int) {
    x in pages && (x in before ==> |pages[x].keys| == |before[x].keys| + 1)
  }

  lemma EntryTouches(before: Pages, spans: Spans, x: int, page: Page)
    requires x in before && |page.keys| == |before[x].keys| + 1 && x in spans && spans[x].level == 0
    ensures Touching(before, before[x := page], {}) && AboveKept(before, before[x := page], spans, 0)
    ensures Gained(before, before[x := page], x)
  {}

  lemma LeafCutTouches(before: Pages, pages: Pages, spans: Spans, updates: set<int>, x: int, right: int,
                       sep: LocatorKey, order: int, cut: Pages)
    requires Touching(before, pages, updates) && AboveKept(before, pages, spans, 0) && Gained(before, pages, x)
    requires x in spans && spans[x].level == 0 && |pages[x].keys| == order >= 3 && right !in pages && right !in spans
    requires x in cut && right in cut && cut == pages[x := cut[x]][right := cut[right]]
    requires |cut[x].keys| == order / 2 && cut[x].parent == pages[x].parent
    ensures right !in before && Touching(before, cut, updates + {x, right})
    ensures AboveKept(before, cut, CutSpans(spans, x, right, sep), 0)
  {
    hide SameBody;
  }

  lemma InnerCutTouches(before: Pages, pages: Pages, spans: Spans, updates: set<int>, x: int, mid: nat, right: int,
                        sep: LocatorKey)
    requires Touching(before, pages, updates) && x in spans && AboveKept(before, pages, spans, spans[x].level)
    requires Gained(before, pages, x) && mid == |pages[x].keys| / 2 && |pages[x].keys| >= 3
    requires |pages[x].children| == |pages[x].keys| + 1 && right !in pages && right !in spans
    requires forall c :: c in pages[x].children ==> c in pages && c != x
    ensures right !in before
    ensures Touching(before, CutInnerOf(pages, x, mid, right), updates + {x, right} + Moved(pages[x], mid))
    ensures AboveKept(before, CutInnerOf(pages, x, mid, right), CutSpans(spans, x, right, sep), spans[x].level)
  {
    hide ChildHashes, SameBody, PageHash;
    var cut := CutInnerOf(pages, x, mid, right);
    var upper := pages[x].children[mid + 1..];
    assert forall c :: c in Moved(pages[x], mid) <==> c in upper;
    assert |cut[x].keys| == mid && cut[right].keys == pages[x].keys[mid + 1..];
    assert forall p :: p in pages && p != x ==>
      p in cut && cut[p] == if p in upper then pages[p].(parent := Some(right)) else pages[p];
    InnerCutKeeps(before, pages, cut, updates, x, right, upper);
  }

  lemma InnerCutKeeps(before: Pages, pages: Pages, cut: Pages, updates: set<int>, x: int, right: int, upper: seq<int>)
    requires Touching(before, pages, updates) && Gained(before, pages, x)
    requires right !in pages && x in cut && right in cut && |cut[x].keys| == |pages[x].keys| / 2 && |pages[x].keys| >= 3
    requires cut[x].parent == pages[x].parent && forall c :: c in upper ==> c in pages && c != x
    requires forall p :: p in pages && p != x ==>
      p in cut && cut[p] == if p in upper then pages[p].(parent := Some(right)) else pages[p]
    ensures forall moved: set<int> :: (forall c :: c in moved <==> c in upper) ==>
      Touching(before, cut, updates + {x, right} + moved)
  {
    assert right !in before;
  }

  lemma PairTouches(before: Pages, pages: Pages, spans: Spans, updates: set<int>, cur: int, right: int,
                    sep: LocatorKey, parent: int, spans': Spans)
    requires Touching(before, pages, updates) && cur in spans && AboveKept(before, pages, spans, spans[cur].level)
    requires Pairable(pages, cur, right) && right !in before && parent == ParentID(pages, cur, parent)
    requires cur in updates && right in updates
    requires if pages[cur].parent.None?
      then parent !in pages && spans' == GrownSpans(spans, parent, spans[cur].level)
      else spans' == spans && parent in spans && spans[parent].level == spans[cur].level + 1
    ensures var paired := Paired(pages, cur, right, sep, parent);
      && Touching(before, paired, updates + {cur, right, parent}) && Gained(before, paired, parent)
      && AboveKept(before, paired, spans', spans[cur].level + 1)
  {}

  // ---- The climb ----

  /** From a page up to the root. */
  ghost predicate PathUpwards(pages: Pages, leaf: int, path: seq<int>) {
    && path != [] && path[0] == leaf && (forall i :: 0 <= i < |path| ==> path[i] in pages)
    && forall i :: 0 <= i < |path| - 1 ==> pages[path[i]].parent == Some(path[i + 1])
  }

  ghost function ContentsOf(pages: Pages): set<Preimage> {
    set p | p in pages :: PageContents(pages, pages[p])
  }

  /** A hash of page contents before that is also the hash of other page contents now. */
  ghost predicate PagesCollide(before: Pages, pages: Pages) {
    Collide(ContentsOf(before), ContentsOf(pages))
  }

  /** The listed pages are new or not what they were, or hashes collide. */
  ghost predicate OnlyChanged(before: Pages, pages: Pages, updates: set<int>) {
    forall p :: p in updates ==> p in pages && (p !in before || before[p] != pages[p] || PagesCollide(before, pages))
  }

  lemma ContentsDiffer(before: Pages, pages: Pages, p: int)
    requires p in before && p in pages && HashOK(before, p) && HashOK(pages, p)
    requires PageContents(before, before[p]) != PageContents(pages, pages[p])
    ensures before[p].hash != pages[p].hash || PagesCollide(before, pages)
  {
    hide PageContents;
    assert PageContents(before, before[p]) in ContentsOf(before);
    assert PageContents(pages, pages[p]) in ContentsOf(pages);
  }

  /** Every hash on the path has changed: that of the leaf with its records, that of a page with that of one of its
      children. */
  lemma {:induction false} PathChanged(before: Pages, pages: Pages, spans: Spans, spans': Spans, root: int, root': int,
                                       height: int, height': int, leaf: int, path: seq<int>, i: nat)
    requires Shape(before, spans, root, height) && Shape(pages, spans', root', height')
    requires (forall p :: p in before ==> HashOK(before, p)) && forall p :: p in pages ==> HashOK(pages, p)
    requires PathUpwards(pages, leaf, path) && i < |path| && Touching(before, pages, {})
    requires leaf in before ==> |pages[leaf].keys| != |before[leaf].keys|
    ensures path[i] !in before || before[path[i]].hash != pages[path[i]].hash || PagesCollide(before, pages)
  {
    hide Shape, HashOK, PagesCollide, ChildHashes;
    var p := path[i];
    if p in before && |pages[p].keys| != |before[p].keys| {
      ContentsDiffer(before, pages, p);
    } else if p in before {
      assert i > 0;
      var c := path[i - 1];
      PathChanged(before, pages, spans, spans', root, root', height, height', leaf, path, i - 1);
      ParentIsIn(pages, spans', root', height', c);
      OnlyParent(before, spans, root, height, p, c);
      if before[c].hash != pages[c].hash { ChildDiffers(before, pages, p, c); }
    }
  }

  lemma ChildDiffers(before: Pages, pages: Pages, p: int, c: int)
    requires p in before && p in pages && HashOK(before, p) && HashOK(pages, p) && SameBody(before[p], pages[p])
    requires !pages[p].isLeaf && c in pages[p].children && c in before && c in pages && before[c].hash != pages[c].hash
    ensures before[p].hash != pages[p].hash || PagesCollide(before, pages)
  {
    hide HashOK, PagesCollide;
    var children := pages[p].children;
    var k :| 0 <= k < |children| && children[k] == c;
    assert ChildHashes(before, children)[k] != ChildHashes(pages, children)[k];
    ContentsDiffer(before, pages, p);
  }

  /** What the cuts touched and the climb listed are exactly changed pages. */
  lemma ListedChanged(before: Pages, stale: Pages, pages: Pages, spans: Spans, spans': Spans, root: int, root': int,
                      height: int, height': int, leaf: int, path: seq<int>, touched: set<int>, updates: set<int>)
    requires Shape(before, spans, root, height) && Shape(pages, spans', root', height')
    requires (forall p :: p in before ==> HashOK(before, p)) && forall p :: p in pages ==> HashOK(pages, p)
    requires Touching(before, stale, touched) && PathUpwards(pages, leaf, path)
    requires forall p :: p in stale ==> p in pages && pages[p] == stale[p].(hash := pages[p].hash)
    requires leaf in before ==> |pages[leaf].keys| != |before[leaf].keys|
    requires forall p :: p in updates ==> p in touched || p in path
    ensures OnlyChanged(before, pages, updates)
  {
    hide Shape, HashOK, PagesCollide;
    forall p | p in updates
      ensures p in pages && (p !in before || before[p] != pages[p] || PagesCollide(before, pages)) {
      if p in path {
        var i :| 0 <= i < |path| && path[i] == p;
        PathChanged(before, pages, spans, spans', root, root', height, height', leaf, path, i);
      } else {
        assert Touched(before, stale, p);
        if p in before && before[p].parent.Some? { ParentIsIn(before, spans, root, height, p); }
      }
    }
  }

  lemma ParentIsIn(pages: Pages, spans: Spans, root: int, height: int, p: int)
    requires Shape(pages, spans, root, height) && p in pages && pages[p].parent.Some?
    ensures var q := pages[p].parent.value; q in pages && !pages[q].isLeaf && p in pages[q].children
  {
    hide Shape, PageOK, ChildOK;
    PageAt(pages, spans, root, height, p);
  }
}
