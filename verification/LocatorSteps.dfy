/** The steps of an insertion, each of which keeps the shape of the tree. */
module LocatorSteps {
  import opened Hashing
  import opened LocatorKeys
  import opened LocatorPages

  function InsertAt<T>(s: seq<T>, i: nat, x: T): (r: seq<T>)
    requires i <= |s|
    ensures |r| == |s| + 1 && r[i] == x
    ensures forall j :: 0 <= j < i ==> r[j] == s[j]
    ensures forall j :: i < j < |r| ==> r[j] == s[j - 1]
  {
    s[..i] + [x] + s[i..]
  }

  /** An internal page that gained a separator and the child on its right. */
  function WithPair(page: Page, idx: nat, sep: LocatorKey, right: int): Page
    requires idx <= |page.keys| && idx < |page.children|
  {
    page.(keys := InsertAt(page.keys, idx, sep), children := InsertAt(page.children, idx + 1, right))
  }

  /** Page `x`, child `idx` of `q`, is split at `sep`: `r` takes its upper part, `moved` are the
      pages whose parent becomes `r`, and `q` gains the pair. */
  datatype Split = Split(x: int, r: int, q: int, idx: nat, sep: LocatorKey, moved: set<int>)

  ghost predicate IsChild(pages: Pages, q: int, idx: nat, x: int) {
    q in pages && !pages[q].isLeaf && idx < |pages[q].children| && |pages[q].children| == |pages[q].keys| + 1
    && pages[q].children[idx] == x
  }

  ghost predicate SplitSpans(spans: Spans, spans': Spans, s: Split) {
    && s.x in spans && s.r !in spans && (forall p :: p in spans' <==> p in spans || p == s.r)
    && (forall p :: p in spans && p != s.x ==> spans'[p] == spans[p])
    && spans'[s.x] == Span(spans[s.x].level, spans[s.x].lo, Some(s.sep))
    && spans'[s.r] == Span(spans[s.x].level, Some(s.sep), spans[s.x].hi)
  }

  ghost predicate SplitPages(pages: Pages, pages': Pages, s: Split) {
    && IsChild(pages, s.q, s.idx, s.x) && s.x in pages && s.r !in pages && s.q != s.x
    && (forall p :: p in pages' <==> p in pages || p == s.r)
    && pages'[s.q] == WithPair(pages[s.q], s.idx, s.sep, s.r)
    && pages'[s.x].parent == pages'[s.r].parent == pages[s.x].parent == Some(s.q)
    && pages'[s.x].isLeaf == pages'[s.r].isLeaf == pages[s.x].isLeaf
    && pages'[s.x].keys != [] && pages'[s.r].keys != []
    && (forall p :: p in s.moved ==>
        p in pages && p != s.x && p != s.q && pages[p].parent == Some(s.x)
        && pages'[p] == pages[p].(parent := Some(s.r)))
    && (forall p :: p in pages && p != s.x && p != s.q && p !in s.moved ==> pages'[p] == pages[p])
  }

  ghost predicate SplitStep(pages: Pages, spans: Spans, pages': Pages, spans': Spans, s: Split) {
    && SplitPages(pages, pages', s) && SplitSpans(spans, spans', s) && StrictlyIn(spans[s.x], s.sep)
    && PageOK(pages', spans', s.x) && PageOK(pages', spans', s.r)
    && (forall c :: c in pages && pages[c].parent == Some(s.x) ==>
          if c in s.moved then !pages'[s.r].isLeaf && c in pages'[s.r].children
            else !pages'[s.x].isLeaf && c in pages'[s.x].children)
  }

  /** A split keeps the shape. */
  lemma SplitKeepsShape(pages: Pages, spans: Spans, pages': Pages, spans': Spans, root: int, height: int, s: Split)
    requires Shape(pages, spans, root, height) && SplitStep(pages, spans, pages', spans', s)
    ensures Shape(pages', spans', root, height)
  {
    hide PageOK, Placed, IsChild, Shape;
    SplitDomain(pages, spans, pages', spans', root, height, s);
    forall p | p in pages' ensures PageOK(pages', spans', p) && Placed(pages', spans', root, height, p) {
      SplitPage(pages, spans, pages', spans', root, height, s, p);
      SplitPlaced(pages, spans, pages', spans', root, height, s, p);
    }
    assert Shape(pages', spans', root, height) by { hide *; ShapeIs(pages', spans', root, height); }
  }

  lemma ShapeIs(pages: Pages, spans: Spans, root: int, height: int)
    requires root in pages && (forall p :: p in pages <==> p in spans)
    requires forall p :: p in pages ==> p in spans && PageOK(pages, spans, p) && Placed(pages, spans, root, height, p)
    ensures Shape(pages, spans, root, height)
  {}

  lemma SplitDomain(pages: Pages, spans: Spans, pages': Pages, spans': Spans, root: int, height: int, s: Split)
    requires Shape(pages, spans, root, height) && SplitPages(pages, pages', s) && SplitSpans(spans, spans', s)
    ensures root in pages && root in pages' && forall p :: p in pages' <==> p in spans'
  {
    hide PageOK, Placed, IsChild;
  }

  lemma SplitPage(pages: Pages, spans: Spans, pages': Pages, spans': Spans, root: int, height: int, s: Split, p: int)
    requires Shape(pages, spans, root, height) && SplitStep(pages, spans, pages', spans', s) && p in pages'
    requires p in spans'
    ensures PageOK(pages', spans', p)
  {
    hide PageOK, Placed, IsChild, Shape;
    if p != s.x && p != s.r {
      PageAt(pages, spans, root, height, p);
      if p == s.q {
        ParentSplit(pages, spans, pages', spans', root, height, s);
      } else if pages[p].isLeaf {
        LeafKept(pages, spans, pages', spans', root, height, s, p);
      } else {
        InnerKept(pages, spans, pages', spans', root, height, s, p);
      }
    }
  }

  lemma LeafKept(pages: Pages, spans: Spans, pages': Pages, spans': Spans, root: int, height: int, s: Split, p: int)
    requires Shape(pages, spans, root, height) && SplitStep(pages, spans, pages', spans', s)
    requires p in pages && p in spans && p != s.x && p != s.r && p != s.q && pages[p].isLeaf
    ensures p in pages' && p in spans' && PageOK(pages', spans', p)
  {
    hide Placed, Shape, KeysSorted, Covers, StrictlyIn, InnerOK, NextOK;
    PageAt(pages, spans, root, height, p);
    NextKept(pages, spans, pages', spans', s, pages[p].next, spans[p].hi);
    assert spans'[p] == spans[p];
    assert pages'[p].keys == pages[p].keys && pages'[p].values == pages[p].values;
  }

  lemma NextKept(pages: Pages, spans: Spans, pages': Pages, spans': Spans, s: Split, next: Option<int>,
                 hi: Option<LocatorKey>)
    requires SplitPages(pages, pages', s) && SplitSpans(spans, spans', s) && NextOK(pages, spans, next, hi)
    ensures NextOK(pages', spans', next, hi)
  {
    if hi.Some? {
      var n := next.value;
      assert n in pages' && n in spans';
      assert pages'[n].isLeaf;
      assert spans'[n].lo == spans[n].lo;
    }
  }

  lemma InnerKept(pages: Pages, spans: Spans, pages': Pages, spans': Spans, root: int, height: int, s: Split, p: int)
    requires Shape(pages, spans, root, height) && SplitStep(pages, spans, pages', spans', s)
    requires p in pages && p in spans && p != s.x && p != s.r && p != s.q && !pages[p].isLeaf
    ensures p in pages' && p in spans' && PageOK(pages', spans', p)
  {
    hide Placed, Shape, KeysSorted, Covers, StrictlyIn, LeafOK;
    PageAt(pages, spans, root, height, p);
    forall i | 0 <= i < |pages[p].children| ensures ChildOK(pages', spans', p, i) {
      assert ChildOK(pages, spans, p, i);
    }
  }

  /** The parent's interval is split among one more child. */
  lemma ParentSplit(pages: Pages, spans: Spans, pages': Pages, spans': Spans, root: int, height: int, s: Split)
    requires Shape(pages, spans, root, height) && SplitStep(pages, spans, pages', spans', s)
    ensures s.q in pages' && s.q in spans' && PageOK(pages', spans', s.q)
  {
    hide Placed, Shape, Covers, LeafOK, KeyLess;
    PageAt(pages, spans, root, height, s.q);
    assert ChildOK(pages, spans, s.q, s.idx);
    PairSorted(spans[s.q], pages[s.q].keys, s.idx, s.sep);
    forall i | 0 <= i < |pages'[s.q].children| ensures ChildOK(pages', spans', s.q, i) {
      ChildSplit(pages, spans, pages', spans', root, height, s, i);
    }
  }

  lemma PairSorted(span: Span, keys: seq<LocatorKey>, idx: nat, sep: LocatorKey)
    requires KeysSorted(keys) && (forall i :: 0 <= i < |keys| ==> StrictlyIn(span, keys[i])) && idx <= |keys|
    requires StrictlyIn(Span(span.level, LowOf(span, keys, idx), HighOf(span, keys, idx)), sep)
    ensures KeysSorted(InsertAt(keys, idx, sep))
    ensures forall i :: 0 <= i < |keys| + 1 ==> StrictlyIn(span, InsertAt(keys, idx, sep)[i])
  {
    hide KeyLess;
    KeyOrder();
    var after := InsertAt(keys, idx, sep);
    forall i, j | 0 <= i < j < |after| ensures KeyLess(after[i], after[j]) {
      assert i < idx - 1 ==> KeyLess(keys[i], keys[idx - 1]);
      assert j - 1 > idx ==> KeyLess(keys[idx], keys[j - 1]);
    }
  }

  lemma ChildSplit(pages: Pages, spans: Spans, pages': Pages, spans': Spans, root: int, height: int, s: Split, i: int)
    requires Shape(pages, spans, root, height) && SplitStep(pages, spans, pages', spans', s)
    requires s.q in pages' && s.q in spans' && 0 <= i < |pages'[s.q].children|
    requires |pages'[s.q].children| == |pages'[s.q].keys| + 1
    ensures ChildOK(pages', spans', s.q, i)
  {
    hide Placed, Shape, Covers, LeafOK, KeyLess, KeysSorted, StrictlyIn;
    PageAt(pages, spans, root, height, s.q);
    assert ChildOK(pages, spans, s.q, s.idx);
    if i != s.idx && i != s.idx + 1 {
      var j := if i < s.idx then i else i - 1;
      assert ChildOK(pages, spans, s.q, j);
      if pages[s.q].children[j] == s.x { SameChild(pages, spans, root, height, s.q, j, s.idx); }
    }
  }

  /** A page is at one position among its parent's children. */
  lemma SameChild(pages: Pages, spans: Spans, root: int, height: int, q: int, i: int, j: int)
    requires Shape(pages, spans, root, height) && q in pages && !pages[q].isLeaf
    requires 0 <= i < |pages[q].children| && 0 <= j < |pages[q].children|
    requires pages[q].children[i] == pages[q].children[j]
    ensures i == j
  {
    hide Shape, PageOK;
    if i < j { ChildBefore(pages, spans, root, height, q, i, j); }
    if j < i { ChildBefore(pages, spans, root, height, q, j, i); }
  }

  lemma ChildBefore(pages: Pages, spans: Spans, root: int, height: int, q: int, i: int, j: int)
    requires Shape(pages, spans, root, height) && q in pages && !pages[q].isLeaf && 0 <= i < j < |pages[q].children|
    ensures pages[q].children[i] != pages[q].children[j]
  {
    hide Placed, Shape, Covers, LeafOK, KeyLess;
    KeyOrder();
    PageAt(pages, spans, root, height, q);
    assert ChildOK(pages, spans, q, i) && ChildOK(pages, spans, q, j);
    var keys := pages[q].keys;
    assert i > 0 ==> KeyLess(keys[i - 1], keys[j - 1]);
    assert StrictlyIn(spans[q], keys[j - 1]);
  }

  lemma SplitPlaced(pages: Pages, spans: Spans, pages': Pages, spans': Spans, root: int, height: int, s: Split, p: int)
    requires Shape(pages, spans, root, height) && SplitStep(pages, spans, pages', spans', s) && p in pages'
    requires p in spans'
    ensures Placed(pages', spans', root, height, p)
  {
    hide Shape, PageOK, StrictlyIn;
    PageAt(pages, spans, root, height, s.x);
    PageAt(pages, spans, root, height, s.q);
    PairMembers(pages[s.q], s.idx, s.sep, s.r);
    SplitDomain(pages, spans, pages', spans', root, height, s);
    if p == s.r {
      assert pages'[p].parent == Some(s.q) && s.q in pages';
    } else {
      PageAt(pages, spans, root, height, p);
      assert s.x != root && spans'[p].level == spans[p].level;
      if p == root {
        assert pages'[p].parent == pages[p].parent && spans'[p] == spans[p];
      } else {
        PlacedKept(pages, pages', s, p);
        assert pages'[p].keys != [];
      }
    }
  }

  /** Every page is still among the children of its parent. */
  lemma PlacedKept(pages: Pages, pages': Pages, s: Split, p: int)
    requires SplitPages(pages, pages', s) && p in pages && pages[p].parent.Some?
    requires pages[p].parent.value in pages && !pages[pages[p].parent.value].isLeaf
    requires p in pages[pages[p].parent.value].children
    requires pages[p].parent == Some(s.x) ==>
      if p in s.moved then !pages'[s.r].isLeaf && p in pages'[s.r].children
        else !pages'[s.x].isLeaf && p in pages'[s.x].children
    ensures pages'[p].parent.Some? && pages'[p].parent.value in pages' && !pages'[pages'[p].parent.value].isLeaf
    ensures p in pages'[pages'[p].parent.value].children
  {
    var q := pages[p].parent.value;
    assert q in pages';
    PairMembers(pages[s.q], s.idx, s.sep, s.r);
    if q != s.x { assert pages'[q].children == pages[q].children || q == s.q; }
  }

  lemma PairMembers(page: Page, idx: nat, sep: LocatorKey, right: int)
    requires idx <= |page.keys| && idx < |page.children|
    ensures forall c :: c in page.children ==> c in WithPair(page, idx, sep, right).children
    ensures right in WithPair(page, idx, sep, right).children && WithPair(page, idx, sep, right).keys != []
  {
    var after := WithPair(page, idx, sep, right).children;
    forall c | c in page.children ensures c in after {
      var i :| 0 <= i < |page.children| && page.children[i] == c;
      assert after[if i <= idx then i else i + 1] == c;
    }
    assert after[idx + 1] == right;
  }

  // ---- Splitting a leaf and an internal page ----

  function LeftLeaf(page: Page, mid: nat, right: int, hash: Digest): Page
    requires mid <= |page.keys| && |page.values| == |page.keys|
  {
    page.(keys := page.keys[..mid], values := page.values[..mid], next := Some(right), hash := hash)
  }

  function RightLeaf(page: Page, mid: nat, right: int, hash: Digest): Page
    requires mid <= |page.keys| && |page.values| == |page.keys|
  {
    Page(right, hash, true, page.keys[mid..], page.values[mid..], page.next, [], page.parent)
  }

  function LeftInner(page: Page, mid: nat, hash: Digest): Page
    requires mid < |page.keys| && |page.children| == |page.keys| + 1
  {
    page.(keys := page.keys[..mid], children := page.children[..mid + 1], hash := hash)
  }

  function RightInner(page: Page, mid: nat, right: int, hash: Digest): Page
    requires mid < |page.keys| && |page.children| == |page.keys| + 1
  {
    Page(right, hash, false, page.keys[mid + 1..], [], None, page.children[mid + 1..], page.parent)
  }

  ghost predicate LeafSplitStep(pages: Pages, spans: Spans, pages': Pages, spans': Spans, s: Split, mid: nat) {
    && SplitPages(pages, pages', s) && SplitSpans(spans, spans', s) && s.moved == {} && pages[s.x].isLeaf
    && 0 < mid < |pages[s.x].keys| && |pages[s.x].values| == |pages[s.x].keys| && s.sep == pages[s.x].keys[mid]
    && pages'[s.x] == LeftLeaf(pages[s.x], mid, s.r, pages'[s.x].hash)
    && pages'[s.r] == RightLeaf(pages[s.x], mid, s.r, pages'[s.r].hash)
  }

  lemma LeafSplitKeepsShape(pages: Pages, spans: Spans, pages': Pages, spans': Spans, root: int, height: int,
                            s: Split, mid: nat)
    requires Shape(pages, spans, root, height) && LeafSplitStep(pages, spans, pages', spans', s, mid)
    ensures Shape(pages', spans', root, height)
  {
    hide Shape, PageOK, Placed, KeyLess, SplitSpans, IsChild;
    LeafHalves(pages, spans, pages', spans', root, height, s, mid);
    NoChildren(pages, spans, root, height, s.x);
    SplitKeepsShape(pages, spans, pages', spans', root, height, s);
  }

  lemma NoChildren(pages: Pages, spans: Spans, root: int, height: int, x: int)
    requires Shape(pages, spans, root, height) && x in pages && pages[x].isLeaf
    ensures forall c :: c in pages ==> pages[c].parent != Some(x)
  {
    hide Shape, PageOK;
    forall c | c in pages ensures pages[c].parent != Some(x) { PageAt(pages, spans, root, height, c); }
  }

  lemma LeafHalves(pages: Pages, spans: Spans, pages': Pages, spans': Spans, root: int, height: int, s: Split, mid: nat)
    requires Shape(pages, spans, root, height) && LeafSplitStep(pages, spans, pages', spans', s, mid)
    ensures s.x in spans' && s.r in spans' && s.x in pages' && s.r in pages'
    ensures StrictlyIn(spans[s.x], s.sep) && PageOK(pages', spans', s.x) && PageOK(pages', spans', s.r)
  {
    hide Shape, Placed, InnerOK, IsChild, NextOK;
    PageAt(pages, spans, root, height, s.x);
    KeyOrderFor(pages[s.x].keys, mid, spans[s.x]);
    NextKept(pages, spans, pages', spans', s, pages[s.x].next, spans[s.x].hi);
    LeafLinked(pages', spans', s.r, s.sep);
  }

  lemma LeafLinked(pages: Pages, spans: Spans, r: int, sep: LocatorKey)
    requires r in pages && r in spans && pages[r].isLeaf && spans[r].lo == Some(sep)
    ensures NextOK(pages, spans, Some(r), Some(sep))
  {}

  /** The upper half of sorted keys starts at its first one. */
  lemma KeyOrderFor(keys: seq<LocatorKey>, mid: nat, span: Span)
    requires KeysSorted(keys) && 0 < mid < |keys| && forall i :: 0 <= i < |keys| ==> Covers(span, keys[i])
    ensures StrictlyIn(span, keys[mid]) && KeysSorted(keys[..mid]) && KeysSorted(keys[mid..])
    ensures forall i :: 0 <= i < mid ==> Covers(Span(span.level, span.lo, Some(keys[mid])), keys[..mid][i])
    ensures forall i :: 0 <= i < |keys| - mid ==> Covers(Span(span.level, Some(keys[mid]), span.hi), keys[mid..][i])
  {
    hide KeyLess;
    KeyOrder();
    assert KeyLess(keys[0], keys[mid]) && Covers(span, keys[0]) && Covers(span, keys[mid]);
    forall i | 0 <= i < |keys| - mid ensures KeyAtMost(keys[mid], keys[mid..][i]) {
      assert i > 0 ==> KeyLess(keys[mid], keys[mid + i]);
    }
  }

  ghost predicate InnerSplitStep(pages: Pages, spans: Spans, pages': Pages, spans': Spans, s: Split, mid: nat) {
    && SplitPages(pages, pages', s) && SplitSpans(spans, spans', s) && !pages[s.x].isLeaf
    && 0 < mid < |pages[s.x].keys| - 1 && |pages[s.x].children| == |pages[s.x].keys| + 1
    && s.sep == pages[s.x].keys[mid]
    && (forall c :: c in s.moved <==> c in pages[s.x].children[mid + 1..])
    && pages'[s.x] == LeftInner(pages[s.x], mid, pages'[s.x].hash)
    && pages'[s.r] == RightInner(pages[s.x], mid, s.r, pages'[s.r].hash)
  }

  lemma InnerSplitKeepsShape(pages: Pages, spans: Spans, pages': Pages, spans': Spans, root: int, height: int,
                             s: Split, mid: nat)
    requires Shape(pages, spans, root, height) && InnerSplitStep(pages, spans, pages', spans', s, mid)
    ensures Shape(pages', spans', root, height)
  {
    hide Shape, PageOK, Placed, KeyLess, SplitPages, SplitSpans, IsChild;
    LeftHalf(pages, spans, pages', spans', root, height, s, mid);
    RightHalf(pages, spans, pages', spans', root, height, s, mid);
    forall c | c in pages && pages[c].parent == Some(s.x)
      ensures if c in s.moved then !pages'[s.r].isLeaf && c in pages'[s.r].children
        else !pages'[s.x].isLeaf && c in pages'[s.x].children
    {
      ChildMoved(pages, spans, pages', spans', root, height, s, mid, c);
    }
    SplitKeepsShape(pages, spans, pages', spans', root, height, s);
  }

  lemma ChildMoved(pages: Pages, spans: Spans, pages': Pages, spans': Spans, root: int, height: int, s: Split,
                   mid: nat, c: int)
    requires Shape(pages, spans, root, height) && InnerSplitStep(pages, spans, pages', spans', s, mid)
    requires c in pages && pages[c].parent == Some(s.x)
    ensures if c in s.moved then !pages'[s.r].isLeaf && c in pages'[s.r].children
      else !pages'[s.x].isLeaf && c in pages'[s.x].children
  {
    hide Shape, PageOK, SplitSpans, IsChild;
    PageAt(pages, spans, root, height, c);
    PageAt(pages, spans, root, height, s.x);
    var i :| 0 <= i < |pages[s.x].children| && pages[s.x].children[i] == c;
    if i <= mid {
      assert pages'[s.x].children[i] == c;
    } else {
      assert pages'[s.r].children[i - mid - 1] == c;
    }
  }

  lemma SeparatorInside(span: Span, keys: seq<LocatorKey>, mid: nat)
    requires KeysSorted(keys) && mid < |keys| && forall i :: 0 <= i < |keys| ==> StrictlyIn(span, keys[i])
    ensures StrictlyIn(span, keys[mid]) && KeysSorted(keys[..mid]) && KeysSorted(keys[mid + 1..])
    ensures forall i :: 0 <= i < mid ==> StrictlyIn(Span(span.level, span.lo, Some(keys[mid])), keys[..mid][i])
    ensures forall k :: k in keys[mid + 1..] ==> StrictlyIn(Span(span.level, Some(keys[mid]), span.hi), k)
  {
    hide KeyLess;
  }

  lemma LeftHalf(pages: Pages, spans: Spans, pages': Pages, spans': Spans, root: int, height: int, s: Split, mid: nat)
    requires Shape(pages, spans, root, height) && InnerSplitStep(pages, spans, pages', spans', s, mid)
    ensures s.x in spans' && s.x in pages' && StrictlyIn(spans[s.x], s.sep) && PageOK(pages', spans', s.x)
  {
    hide Shape, Placed, LeafOK, IsChild, KeysSorted, StrictlyIn;
    PageAt(pages, spans, root, height, s.x);
    SeparatorInside(spans[s.x], pages[s.x].keys, mid);
    forall i | 0 <= i < mid + 1 ensures ChildOK(pages', spans', s.x, i) {
      assert ChildOK(pages, spans, s.x, i);
      NotMoved(pages, spans, root, height, s.x, mid, i);
    }
  }

  lemma NotMoved(pages: Pages, spans: Spans, root: int, height: int, x: int, mid: nat, i: int)
    requires Shape(pages, spans, root, height) && x in pages && !pages[x].isLeaf && 0 <= i <= mid < |pages[x].children|
    ensures pages[x].children[i] !in pages[x].children[mid + 1..]
  {
    hide Shape;
    var right := pages[x].children[mid + 1..];
    forall j | 0 <= j < |right| ensures right[j] != pages[x].children[i] {
      ChildBefore(pages, spans, root, height, x, i, mid + 1 + j);
    }
  }

  lemma RightHalf(pages: Pages, spans: Spans, pages': Pages, spans': Spans, root: int, height: int, s: Split, mid: nat)
    requires Shape(pages, spans, root, height) && InnerSplitStep(pages, spans, pages', spans', s, mid)
    ensures s.r in spans' && s.r in pages' && PageOK(pages', spans', s.r)
  {
    hide Shape, Placed, LeafOK, IsChild, KeysSorted, StrictlyIn;
    PageAt(pages, spans, root, height, s.x);
    SeparatorInside(spans[s.x], pages[s.x].keys, mid);
    forall i | 0 <= i < |pages'[s.r].children| ensures ChildOK(pages', spans', s.r, i) {
      assert ChildOK(pages, spans, s.x, mid + 1 + i);
      assert pages'[s.r].children[i] == pages[s.x].children[mid + 1 + i];
    }
  }

  // ---- Growing the root and adding an entry ----

  /** A new root above the old one, its only child for now. */
  function Grown(pages: Pages, root: int, newRoot: int, hash: Digest): Pages
    requires root in pages
  {
    pages[root := pages[root].(parent := Some(newRoot))][newRoot := Page(newRoot, hash, false, [], [], None, [root],
                                                                         None)]
  }

  function GrownSpans(spans: Spans, newRoot: int, height: int): Spans {
    spans[newRoot := Span(height + 1, None, None)]
  }

  lemma GrowKeepsShape(pages: Pages, spans: Spans, root: int, height: int, newRoot: int, hash: Digest)
    requires Shape(pages, spans, root, height) && newRoot !in pages && root in pages && pages[root].keys != []
    requires height >= 0
    ensures Shape(Grown(pages, root, newRoot, hash), GrownSpans(spans, newRoot, height), newRoot, height + 1)
  {
    hide Shape, PageOK, Placed, KeysSorted, Covers, StrictlyIn;
    var pages', spans' := Grown(pages, root, newRoot, hash), GrownSpans(spans, newRoot, height);
    GrownDomain(pages, spans, root, height, newRoot, hash);
    forall p | p in pages' ensures PageOK(pages', spans', p) && Placed(pages', spans', newRoot, height + 1, p) {
      GrownPage(pages, spans, root, height, newRoot, hash, p);
    }
    ShapeIs(pages', spans', newRoot, height + 1);
  }

  lemma GrownDomain(pages: Pages, spans: Spans, root: int, height: int, newRoot: int, hash: Digest)
    requires Shape(pages, spans, root, height) && root in pages
    ensures forall p :: p in Grown(pages, root, newRoot, hash) <==> p in GrownSpans(spans, newRoot, height)
  {
    hide PageOK, Placed;
  }

  lemma GrownPage(pages: Pages, spans: Spans, root: int, height: int, newRoot: int, hash: Digest, p: int)
    requires Shape(pages, spans, root, height) && newRoot !in pages && root in pages && pages[root].keys != []
    requires height >= 0
    requires p in Grown(pages, root, newRoot, hash) && p in GrownSpans(spans, newRoot, height)
    ensures PageOK(Grown(pages, root, newRoot, hash), GrownSpans(spans, newRoot, height), p)
    ensures Placed(Grown(pages, root, newRoot, hash), GrownSpans(spans, newRoot, height), newRoot, height + 1, p)
  {
    hide Shape, Covers, StrictlyIn, LeafOK, InnerOK;
    PageAt(pages, spans, root, height, root);
    if p == newRoot {
      NewRoot(pages, spans, root, height, newRoot, hash);
    } else {
      PageAt(pages, spans, root, height, p);
      GrownContents(pages, spans, root, height, newRoot, hash, p);
    }
  }

  lemma NewRoot(pages: Pages, spans: Spans, root: int, height: int, newRoot: int, hash: Digest)
    requires root in pages && root in spans && spans[root] == Span(height, None, None) && newRoot !in pages
    requires height >= 0 && root != newRoot
    ensures InnerOK(Grown(pages, root, newRoot, hash), GrownSpans(spans, newRoot, height), newRoot)
  {}

  lemma GrownContents(pages: Pages, spans: Spans, root: int, height: int, newRoot: int, hash: Digest, p: int)
    requires Shape(pages, spans, root, height) && newRoot !in pages && root in pages && p in pages && p in spans
    ensures pages[p].isLeaf ==> LeafOK(Grown(pages, root, newRoot, hash), GrownSpans(spans, newRoot, height), p)
    ensures !pages[p].isLeaf ==> InnerOK(Grown(pages, root, newRoot, hash), GrownSpans(spans, newRoot, height), p)
  {
    hide Shape, Covers, StrictlyIn, KeysSorted;
    PageAt(pages, spans, root, height, p);
    PageAt(pages, spans, root, height, root);
    if !pages[p].isLeaf {
      var pages', spans' := Grown(pages, root, newRoot, hash), GrownSpans(spans, newRoot, height);
      forall i | 0 <= i < |pages[p].children| ensures ChildOK(pages', spans', p, i) {
        assert ChildOK(pages, spans, p, i);
      }
    }
  }

  function WithEntry(page: Page, idx: nat, key: LocatorKey, value: Option<LocatorValue>): Page
    requires idx <= |page.keys| == |page.values|
  {
    page.(keys := InsertAt(page.keys, idx, key), values := InsertAt(page.values, idx, value))
  }

  /** `idx` is where a key belongs among sorted keys. */
  ghost predicate IsPlace(keys: seq<LocatorKey>, key: LocatorKey, idx: nat) {
    && idx <= |keys| && (forall i :: 0 <= i < idx ==> KeyAtMost(keys[i], key))
    && (idx < |keys| ==> KeyLess(key, keys[idx]))
  }

  lemma EntryKeepsShape(pages: Pages, spans: Spans, root: int, height: int, x: int, idx: nat, key: LocatorKey,
                        value: Option<LocatorValue>)
    requires Shape(pages, spans, root, height) && x in pages && x in spans && pages[x].isLeaf
    requires |pages[x].keys| == |pages[x].values|
    requires Covers(spans[x], key) && key !in pages[x].keys && IsPlace(pages[x].keys, key, idx)
    ensures Shape(pages[x := WithEntry(pages[x], idx, key, value)], spans, root, height)
  {
    hide Shape, PageOK, Placed, KeyLess, Covers;
    var pages' := pages[x := WithEntry(pages[x], idx, key, value)];
    ShapeDomain(pages, spans, root, height);
    forall p | p in pages' ensures PageOK(pages', spans, p) && Placed(pages', spans, root, height, p) {
      PageAt(pages, spans, root, height, p);
      EntryPage(pages, spans, root, height, x, idx, key, value, p);
    }
    ShapeIs(pages', spans, root, height);
  }

  lemma ShapeDomain(pages: Pages, spans: Spans, root: int, height: int)
    requires Shape(pages, spans, root, height)
    ensures root in pages && forall p :: p in pages <==> p in spans
  {
    hide PageOK, Placed;
  }

  lemma EntryPage(pages: Pages, spans: Spans, root: int, height: int, x: int, idx: nat, key: LocatorKey,
                  value: Option<LocatorValue>, p: int)
    requires Shape(pages, spans, root, height) && x in pages && x in spans && pages[x].isLeaf
    requires |pages[x].keys| == |pages[x].values|
    requires Covers(spans[x], key) && key !in pages[x].keys && IsPlace(pages[x].keys, key, idx) && p in pages
    requires p in spans
    ensures PageOK(pages[x := WithEntry(pages[x], idx, key, value)], spans, p)
    ensures Placed(pages[x := WithEntry(pages[x], idx, key, value)], spans, root, height, p)
  {
    hide Shape, PageOK, Placed, Covers;
    PageAt(pages, spans, root, height, x);
    PageAt(pages, spans, root, height, p);
    EntryPlaced(pages, spans, root, height, x, idx, key, value, p);
    if p == x { EntryLeaf(pages, spans, x, idx, key, value); }
    else if pages[p].isLeaf { OtherLeaf(pages, spans, x, idx, key, value, p); }
    else { EntryInner(pages, spans, x, idx, key, value, p); }
  }

  /** Adding an entry leaves every page in its place. */
  lemma EntryPlaced(pages: Pages, spans: Spans, root: int, height: int, x: int, idx: nat, key: LocatorKey,
                    value: Option<LocatorValue>, p: int)
    requires x in pages && idx <= |pages[x].keys| == |pages[x].values|
    requires p in pages && p in spans && Placed(pages, spans, root, height, p)
    ensures Placed(pages[x := WithEntry(pages[x], idx, key, value)], spans, root, height, p)
  {}

  lemma EntryLeaf(pages: Pages, spans: Spans, x: int, idx: nat, key: LocatorKey, value: Option<LocatorValue>)
    requires x in pages && x in spans && PageOK(pages, spans, x) && pages[x].isLeaf
    requires |pages[x].keys| == |pages[x].values|
    requires Covers(spans[x], key) && key !in pages[x].keys && IsPlace(pages[x].keys, key, idx)
    ensures PageOK(pages[x := WithEntry(pages[x], idx, key, value)], spans, x)
  {
    hide KeyLess, Covers, KeysSorted;
    EntrySorted(pages[x].keys, spans[x], idx, key);
  }

  lemma OtherLeaf(pages: Pages, spans: Spans, x: int, idx: nat, key: LocatorKey, value: Option<LocatorValue>, p: int)
    requires x in pages && idx <= |pages[x].keys| == |pages[x].values|
    requires p in pages && p in spans && PageOK(pages, spans, p) && p != x && pages[p].isLeaf
    ensures PageOK(pages[x := WithEntry(pages[x], idx, key, value)], spans, p)
  {
    hide Covers, KeysSorted;
  }

  lemma EntryInner(pages: Pages, spans: Spans, x: int, idx: nat, key: LocatorKey, value: Option<LocatorValue>, p: int)
    requires x in pages && idx <= |pages[x].keys| == |pages[x].values|
    requires p in pages && p in spans && PageOK(pages, spans, p) && p != x && !pages[p].isLeaf
    ensures PageOK(pages[x := WithEntry(pages[x], idx, key, value)], spans, p)
  {
    hide KeysSorted, StrictlyIn;
    var pages' := pages[x := WithEntry(pages[x], idx, key, value)];
    forall i | 0 <= i < |pages[p].children| ensures ChildOK(pages', spans, p, i) {
      assert ChildOK(pages, spans, p, i);
    }
  }

  lemma EntrySorted(keys: seq<LocatorKey>, span: Span, idx: nat, key: LocatorKey)
    requires KeysSorted(keys) && IsPlace(keys, key, idx) && key !in keys && Covers(span, key)
    requires forall i :: 0 <= i < |keys| ==> Covers(span, keys[i])
    requires span.lo.Some? ==> keys != [] && keys[0] == span.lo.value
    ensures KeysSorted(InsertAt(keys, idx, key))
      && forall i :: 0 <= i < |keys| + 1 ==> Covers(span, InsertAt(keys, idx, key)[i])
    ensures span.lo.Some? ==> InsertAt(keys, idx, key)[0] == span.lo.value
  {
    hide KeyLess;
    KeyOrder();
    var after := InsertAt(keys, idx, key);
    forall i, j | 0 <= i < j < |after| ensures KeyLess(after[i], after[j]) {
      if j == idx { assert keys[i] in keys; }
      assert i == idx && j - 1 > idx ==> KeyLess(keys[idx], keys[j - 1]);
    }
    assert span.lo.Some? ==> keys[0] in keys;
  }
}
