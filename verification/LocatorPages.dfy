/** Pages of the locator tree (internal/all/locator_page.go) and what makes them a B+ tree. */
module LocatorPages {
  import opened Hashing
  import opened LocatorKeys

  /** Pages refer to each other by identifier. */
  datatype Page = Page(
    pageID: int, hash: Digest, isLeaf: bool, keys: seq<LocatorKey>, values: seq<Option<LocatorValue>>,
    next: Option<int>, children: seq<int>, parent: Option<int>)

  type Pages = map<int, Page>

  /** The level of a page, leaves at 0, and the interval of keys it is responsible for. */
  datatype Span = Span(level: int, lo: Option<LocatorKey>, hi: Option<LocatorKey>)

  type Spans = map<int, Span>

  predicate Covers(span: Span, k: LocatorKey) {
    AboveLow(k, span.lo) && BelowHigh(k, span.hi)
  }

  predicate StrictlyIn(span: Span, k: LocatorKey) {
    (span.lo.None? || KeyLess(span.lo.value, k)) && BelowHigh(k, span.hi)
  }

  function LowOf(span: Span, keys: seq<LocatorKey>, i: int): Option<LocatorKey>
    requires 0 <= i <= |keys|
  {
    if i == 0 then span.lo else Some(keys[i - 1])
  }

  function HighOf(span: Span, keys: seq<LocatorKey>, i: int): Option<LocatorKey>
    requires 0 <= i <= |keys|
  {
    if i == |keys| then span.hi else Some(keys[i])
  }

  /** A leaf ends where the next one starts. */
  ghost predicate NextOK(pages: Pages, spans: Spans, next: Option<int>, hi: Option<LocatorKey>) {
    match hi
    case None => next.None?
    case Some(_) =>
      && next.Some? && next.value in pages && next.value in spans && pages[next.value].isLeaf
      && spans[next.value].lo == hi
  }

  /** A leaf holds keys of its interval, in order, the first at its lower bound. */
  ghost predicate LeafOK(pages: Pages, spans: Spans, p: int)
    requires p in pages && p in spans
  {
    var page, span := pages[p], spans[p];
    && span.level == 0 && |page.values| == |page.keys| && page.children == []
    && KeysSorted(page.keys) && (forall i :: 0 <= i < |page.keys| ==> Covers(span, page.keys[i]))
    && (span.lo.Some? ==> page.keys != [] && page.keys[0] == span.lo.value)
    && NextOK(pages, spans, page.next, span.hi)
  }

  ghost predicate ChildOK(pages: Pages, spans: Spans, p: int, i: int)
    requires p in pages && p in spans && |pages[p].children| == |pages[p].keys| + 1 && 0 <= i < |pages[p].children|
  {
    var c := pages[p].children[i];
    && c in pages && c in spans && pages[c].parent == Some(p)
    && spans[c] == Span(spans[p].level - 1, LowOf(spans[p], pages[p].keys, i), HighOf(spans[p], pages[p].keys, i))
  }

  /** The separators of an internal page split its interval among its children. */
  ghost predicate InnerOK(pages: Pages, spans: Spans, p: int)
    requires p in pages && p in spans
  {
    var page, span := pages[p], spans[p];
    && span.level > 0 && page.values == [] && page.next.None? && |page.children| == |page.keys| + 1
    && KeysSorted(page.keys) && (forall i :: 0 <= i < |page.keys| ==> StrictlyIn(span, page.keys[i]))
    && forall i :: 0 <= i < |page.children| ==> ChildOK(pages, spans, p, i)
  }

  ghost predicate PageOK(pages: Pages, spans: Spans, p: int)
    requires p in pages && p in spans
  {
    pages[p].pageID == p && if pages[p].isLeaf then LeafOK(pages, spans, p) else InnerOK(pages, spans, p)
  }

  /** The root spans all keys; every other page is a child of its parent, and not empty. */
  ghost predicate Placed(pages: Pages, spans: Spans, root: int, height: int, p: int)
    requires p in pages && p in spans
  {
    if p == root then pages[p].parent.None? && spans[p] == Span(height, None, None)
    else
      && pages[p].parent.Some? && pages[p].parent.value in pages && !pages[pages[p].parent.value].isLeaf
      && p in pages[pages[p].parent.value].children && spans[p].level < height && pages[p].keys != []
  }

  ghost predicate Shape(pages: Pages, spans: Spans, root: int, height: int) {
    && root in pages && (forall p :: p in pages <==> p in spans)
    && forall p :: p in pages ==> PageOK(pages, spans, p) && Placed(pages, spans, root, height, p)
  }

  // ---- At each level a key lies in one page ----

  lemma PageAt(pages: Pages, spans: Spans, root: int, height: int, p: int)
    requires Shape(pages, spans, root, height) && p in pages
    ensures p in spans && PageOK(pages, spans, p) && Placed(pages, spans, root, height, p)
  {
    hide PageOK, Placed;
  }

  /** A page's position among its parent's children. */
  lemma ParentOf(pages: Pages, spans: Spans, root: int, height: int, p: int) returns (i: int)
    requires Shape(pages, spans, root, height) && p in pages && p != root
    ensures p in spans && pages[p].parent.Some?
    ensures var q := pages[p].parent.value;
      && q in pages && q in spans && PageOK(pages, spans, q) && !pages[q].isLeaf
      && 0 <= i < |pages[q].children| && pages[q].children[i] == p && spans[q].level == spans[p].level + 1
  {
    hide KeysSorted, StrictlyIn, LeafOK;
    PageAt(pages, spans, root, height, p);
    var q := pages[p].parent.value;
    PageAt(pages, spans, root, height, q);
    i :| 0 <= i < |pages[q].children| && pages[q].children[i] == p;
    assert ChildOK(pages, spans, q, i);
  }

  /** A key of a child is a key of its parent. */
  lemma ChildWithin(pages: Pages, spans: Spans, q: int, i: int, k: LocatorKey)
    requires q in pages && q in spans && InnerOK(pages, spans, q) && 0 <= i < |pages[q].children|
    ensures var c := pages[q].children[i]; c in spans && (Covers(spans[c], k) ==> Covers(spans[q], k))
  {
    hide KeyLess, KeysSorted;
    KeyOrder();
    assert ChildOK(pages, spans, q, i);
  }

  /** Different children of a page share no key. */
  lemma ChildrenApart(pages: Pages, spans: Spans, q: int, i: int, j: int, k: LocatorKey)
    requires q in pages && q in spans && InnerOK(pages, spans, q)
    requires 0 <= i < |pages[q].children| && 0 <= j < |pages[q].children|
    requires pages[q].children[i] in spans && Covers(spans[pages[q].children[i]], k)
    requires pages[q].children[j] in spans && Covers(spans[pages[q].children[j]], k)
    ensures i == j
  {
    if i < j { ChildrenInOrder(pages, spans, q, i, j, k); }
    if j < i { ChildrenInOrder(pages, spans, q, j, i, k); }
  }

  lemma ChildrenInOrder(pages: Pages, spans: Spans, q: int, i: int, j: int, k: LocatorKey)
    requires q in pages && q in spans && InnerOK(pages, spans, q)
    requires 0 <= i < j < |pages[q].children| && pages[q].children[i] in spans && pages[q].children[j] in spans
    ensures !(Covers(spans[pages[q].children[i]], k) && Covers(spans[pages[q].children[j]], k))
  {
    hide KeyLess;
    KeyOrder();
    assert ChildOK(pages, spans, q, i) && ChildOK(pages, spans, q, j);
    var keys := pages[q].keys;
    assert i < j - 1 ==> KeyLess(keys[i], keys[j - 1]);
  }

  lemma {:induction false} OnePage(pages: Pages, spans: Spans, root: int, height: int, p: int, q: int, k: LocatorKey)
    requires Shape(pages, spans, root, height) && p in pages && q in pages && p in spans && q in spans
    requires spans[p].level == spans[q].level && Covers(spans[p], k) && Covers(spans[q], k)
    ensures p == q
    decreases height - spans[p].level
  {
    hide Shape, LeafOK, InnerOK, Covers;
    PageAt(pages, spans, root, height, p);
    PageAt(pages, spans, root, height, q);
    if p != root && q != root {
      var i := ParentOf(pages, spans, root, height, p);
      var j := ParentOf(pages, spans, root, height, q);
      var pp, qq := pages[p].parent.value, pages[q].parent.value;
      ChildWithin(pages, spans, pp, i, k);
      ChildWithin(pages, spans, qq, j, k);
      OnePage(pages, spans, root, height, pp, qq, k);
      ChildrenApart(pages, spans, pp, i, j, k);
    }
  }
}
