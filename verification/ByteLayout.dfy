/** Where each field stands in the bytes that are stored and hashed (internal/all/locator_key.go,
    internal/all/locator_page.go, internal/all/page_codec.go, internal/hmf/commitment.go, internal/domain/hash.go,
    internal/checkpoint/commitment.go). */
module ByteLayout {
  import opened Hashing
  import opened Encoding
  import opened KeyCodec
  import opened PageCodec
  import opened Preimages
  import opened ForestTrees
  import opened Checkpoints
  import P = ProofTypes

  /** The part stands at this offset. */
  ghost predicate Has(data: Bytes, at: int, part: Bytes) {
    0 <= at && at + |part| <= |data| && data[at..at + |part|] == part
  }

  /** At this offset stand four bytes of length, most significant first, and then the text. */
  ghost predicate TextAt(data: Bytes, at: int, text: Text) {
    Has(data, at, BigEndian(|text|, 4)) && Has(data, at + 4, text)
  }

  /** The most significant byte comes first. */
  lemma {:induction false} ByteOf(v: nat, n: nat, i: nat)
    requires i < n
    ensures Pow256(n - 1 - i) > 0 && BigEndian(v, n)[i] as int == v / Pow256(n - 1 - i) % 256
    decreases n
  {
    PowPositive(n - 1 - i);
    if i < n - 1 {
      ByteOf(v / 256, n - 1, i);
      DivideTwice(v, Pow256(n - 2 - i));
    }
  }

  lemma {:induction false} PowPositive(n: nat)
    ensures Pow256(n) > 0
  {
    if n > 0 { PowPositive(n - 1); }
  }

  lemma DivideTwice(v: nat, d: nat)
    requires d > 0
    ensures v / 256 / d == v / (256 * d)
  {
    var x, y, r := v / 256 / d, v / 256 % d, v % 256;
    assert v / 256 == d * x + y;
    assert v == 256 * (d * x + y) + r;
    Scaled(d, x, y, r);
    QuotientIs(256 * d, x, 256 * y + r);
  }

  lemma Scaled(d: nat, x: nat, y: nat, r: nat)
    requires y < d && r < 256
    ensures 256 * (d * x + y) + r == 256 * d * x + (256 * y + r) && 256 * y + r < 256 * d
  {}

  lemma QuotientIs(d: nat, q: nat, r: nat)
    requires r < d
    ensures (d * q + r) / d == q
  {
    var x := (d * q + r) / d;
    assert d * q + r == d * x + (d * q + r) % d;
    assert x < q ==> d * (x + 1) <= d * q;
    assert x > q ==> d * (q + 1) <= d * x;
  }

  // ---- Parts of a concatenation ----

  lemma First(a: Bytes, b: Bytes)
    ensures Has(a + b, 0, a)
  {}

  lemma Then(a: Bytes, b: Bytes, at: int, part: Bytes)
    requires Has(b, at, part)
    ensures Has(a + b, |a| + at, part)
  {
    assert (a + b)[|a| + at..|a| + at + |part|] == b[at..at + |part|];
  }

  lemma FirstText(text: Text, rest: Bytes)
    ensures TextAt(WriteBytes(text) + rest, 0, text) && |WriteBytes(text)| == 4 + |text|
  {
    hide BigEndian;
    assert WriteBytes(text) + rest == BigEndian(|text|, 4) + (text + rest);
    First(BigEndian(|text|, 4), text + rest);
    First(text, rest);
    Then(BigEndian(|text|, 4), text + rest, 0, text);
  }

  lemma ThenText(a: Bytes, b: Bytes, at: int, text: Text)
    requires TextAt(b, at, text)
    ensures TextAt(a + b, |a| + at, text)
  {
    hide Has, BigEndian;
    Then(a, b, at, BigEndian(|text|, 4));
    Then(a, b, at + 4, text);
  }

  // ---- Keys and values ----

  /** A key's four texts, its time and its identifier follow each other in this order and fill the data. */
  lemma KeyLayout(key: LocatorKey)
    ensures var data := EncodeKey(key);
      var service := 4 + |key.tenantID|;
      var logType := service + 4 + |key.serviceID|;
      var region := logType + 4 + |key.logType|;
      var time := region + 4 + |key.regionID|;
      && TextAt(data, 0, key.tenantID) && TextAt(data, service, key.serviceID) && TextAt(data, logType, key.logType)
      && TextAt(data, region, key.regionID) && Has(data, time, EncodeInt64(key.eventTime))
      && Has(data, time + 8, key.logID) && |data| == time + 8 + |key.logID|
  {
    hide Has, TextAt, WriteBytes, EncodeInt64;
    var tail := EncodeInt64(key.eventTime) + key.logID;
    FourTexts(key.tenantID, key.serviceID, key.logType, key.regionID, tail);
    assert EncodeKey(key) == WriteBytes(key.tenantID)
      + (WriteBytes(key.serviceID) + (WriteBytes(key.logType) + (WriteBytes(key.regionID) + tail)));
    First(EncodeInt64(key.eventTime), key.logID);
    assert key.logID + [] == key.logID;
    First(key.logID, []);
    Then(EncodeInt64(key.eventTime), key.logID, 0, key.logID);
    AfterFour(key.tenantID, key.serviceID, key.logType, key.regionID, tail, 0, EncodeInt64(key.eventTime));
    AfterFour(key.tenantID, key.serviceID, key.logType, key.regionID, tail, 8, key.logID);
  }

  function Four(a: Text, b: Text, c: Text, d: Text, tail: Bytes): Bytes {
    WriteBytes(a) + (WriteBytes(b) + (WriteBytes(c) + (WriteBytes(d) + tail)))
  }

  lemma FourTexts(a: Text, b: Text, c: Text, d: Text, tail: Bytes)
    ensures var data := Four(a, b, c, d, tail);
      && TextAt(data, 0, a) && TextAt(data, 4 + |a|, b) && TextAt(data, 8 + |a| + |b|, c)
      && TextAt(data, 12 + |a| + |b| + |c|, d) && |data| == 16 + |a| + |b| + |c| + |d| + |tail|
  {
    hide Has, TextAt, WriteBytes;
    var d4 := WriteBytes(d) + tail;
    var d3 := WriteBytes(c) + d4;
    var d2 := WriteBytes(b) + d3;
    FirstText(d, tail);
    FirstText(c, d4);
    ThenText(WriteBytes(c), d4, 0, d);
    FirstText(b, d3);
    ThenText(WriteBytes(b), d3, 0, c);
    ThenText(WriteBytes(b), d3, 4 + |c|, d);
    FirstText(a, d2);
    ThenText(WriteBytes(a), d2, 0, b);
    ThenText(WriteBytes(a), d2, 4 + |b|, c);
    ThenText(WriteBytes(a), d2, 8 + |b| + |c|, d);
  }

  lemma AfterFour(a: Text, b: Text, c: Text, d: Text, tail: Bytes, at: nat, part: Bytes)
    requires Has(tail, at, part)
    ensures Has(Four(a, b, c, d, tail), 16 + |a| + |b| + |c| + |d| + at, part)
  {
    hide Has;
    Then(WriteBytes(d), tail, at, part);
    Then(WriteBytes(c), WriteBytes(d) + tail, |WriteBytes(d)| + at, part);
    Then(WriteBytes(b), WriteBytes(c) + (WriteBytes(d) + tail), |WriteBytes(c)| + |WriteBytes(d)| + at, part);
    Then(WriteBytes(a), WriteBytes(b) + (WriteBytes(c) + (WriteBytes(d) + tail)),
         |WriteBytes(b)| + |WriteBytes(c)| + |WriteBytes(d)| + at, part);
  }

  /** A value is the byte 0, or the byte 1 and then region, shard, segment and leaf in this order. */
  lemma ValueLayout(value: Option<LocatorValue>)
    ensures value.None? ==> EncodeValue(value) == [0]
    ensures value.Some? ==>
      var data, v := EncodeValue(value), value.value;
      && |data| == 17 + |v.regionID| + |v.shardID| + |v.segmentID| + |v.leafID|
      && data[0] == 1 && TextAt(data, 1, v.regionID) && TextAt(data, 5 + |v.regionID|, v.shardID)
      && TextAt(data, 9 + |v.regionID| + |v.shardID|, v.segmentID)
      && TextAt(data, 13 + |v.regionID| + |v.shardID| + |v.segmentID|, v.leafID)
  {
    hide Has, TextAt, WriteBytes;
    if value.Some? {
      var v := value.value;
      var four := Four(v.regionID, v.shardID, v.segmentID, v.leafID, []);
      FourTexts(v.regionID, v.shardID, v.segmentID, v.leafID, []);
      assert EncodeValue(value) == [1] + four;
      ThenText([1], four, 0, v.regionID);
      ThenText([1], four, 4 + |v.regionID|, v.shardID);
      ThenText([1], four, 8 + |v.regionID| + |v.shardID|, v.segmentID);
      ThenText([1], four, 12 + |v.regionID| + |v.shardID| + |v.segmentID|, v.leafID);
    }
  }

  // ---- Pages ----

  /** The i-th item stands behind the ones before it. */
  lemma {:induction false} ItemAt<T>(items: seq<T>, encode: T -> Bytes, rest: Bytes, i: nat)
    requires i < |items|
    ensures Has(EncodeAll(items, encode) + rest, |EncodeAll(items[..i], encode)|, encode(items[i]))
  {
    hide Has;
    var after := EncodeAll(items[1..], encode);
    assert EncodeAll(items, encode) + rest == encode(items[0]) + (after + rest);
    if i == 0 {
      First(encode(items[0]), after + rest);
    } else {
      ItemAt(items[1..], encode, rest, i - 1);
      assert items[..i][1..] == items[1..][..i - 1];
      Then(encode(items[0]), after + rest, |EncodeAll(items[1..][..i - 1], encode)|, encode(items[i]));
    }
  }

  lemma {:induction false} FixedSize<T>(items: seq<T>, encode: T -> Bytes, size: nat)
    requires forall x :: |encode(x)| == size
    ensures |EncodeAll(items, encode)| == size * |items|
  {
    if items != [] { FixedSize(items[1..], encode, size); }
  }

  /** A stored page: the version, the kind, four bytes of count, each key with its length, and then each value with its
      length or each child's identifier and hash. */
  lemma PageLayout(page: PageData, i: nat)
    requires i < |page.keys| && (page.isLeaf ==> |page.values| == |page.keys|)
    requires !page.isLeaf ==> |page.children| == |page.keys| + 1
    ensures var data := Encoded(page);
      && data[0] == 2 && data[1] == (if page.isLeaf then 1 else 0) && Has(data, 2, BigEndian(|page.keys|, 4))
      && TextAt(data, 6 + |EncodeAll(page.keys[..i], KeyItem)|, EncodeKey(page.keys[i]))
      && var body := 6 + |EncodeAll(page.keys, KeyItem)|;
         && (page.isLeaf ==> TextAt(data, body + |EncodeAll(page.values[..i], ValueItem)|, EncodeValue(page.values[i])))
         && (!page.isLeaf ==>
               |data| == body + 40 * |page.children|
               && forall j :: 0 <= j < |page.children| ==> ChildAt(data, body + 40 * j, page.children[j]))
  {
    hide Has, TextAt, EncodeAll, BigEndian, EncodeKey, EncodeValue, ChildAt, Body, KeyItem, ValueItem;
    PageHead(page, i);
    if page.isLeaf { LeafBody(page, i); } else { InnerBody(page); }
  }

  function Head(page: PageData): Bytes {
    [2, if page.isLeaf then 1 else 0] + BigEndian(|page.keys|, 4)
  }

  lemma PageHead(page: PageData, i: nat)
    requires i < |page.keys|
    ensures var data := Encoded(page);
      && |data| >= 6 && data[0] == 2 && data[1] == (if page.isLeaf then 1 else 0)
      && Has(data, 2, BigEndian(|page.keys|, 4))
      && TextAt(data, 6 + |EncodeAll(page.keys[..i], KeyItem)|, EncodeKey(page.keys[i]))
  {
    hide Has, TextAt, EncodeAll, BigEndian, EncodeKey, WriteBytes, Body;
    var keys, count := EncodeAll(page.keys, KeyItem), BigEndian(|page.keys|, 4);
    var kind := [2, if page.isLeaf then 1 else 0];
    assert Encoded(page) == kind + (count + (keys + Body(page))) && Encoded(page) == Head(page) + (keys + Body(page));
    First(count, keys + Body(page));
    Then(kind, count + (keys + Body(page)), 0, count);
    ItemAt(page.keys, KeyItem, Body(page), i);
    Then(Head(page), keys + Body(page), |EncodeAll(page.keys[..i], KeyItem)|, KeyItem(page.keys[i]));
    WithLength(Encoded(page), 6 + |EncodeAll(page.keys[..i], KeyItem)|, EncodeKey(page.keys[i]));
  }

  lemma BodyBehind(page: PageData, at: nat, part: Bytes)
    requires Has(Body(page), at, part)
    ensures Has(Encoded(page), 6 + |EncodeAll(page.keys, KeyItem)| + at, part)
  {
    hide Has, EncodeAll, BigEndian, KeyItem, Body;
    var keys := EncodeAll(page.keys, KeyItem);
    assert Encoded(page) == (Head(page) + keys) + Body(page);
    Then(Head(page) + keys, Body(page), at, part);
  }

  lemma EncodedLength(page: PageData)
    ensures |Encoded(page)| == 6 + |EncodeAll(page.keys, KeyItem)| + |Body(page)|
  {
    hide EncodeAll, BigEndian, KeyItem, Body;
  }

  lemma LeafBody(page: PageData, i: nat)
    requires page.isLeaf && i < |page.values|
    ensures var body := 6 + |EncodeAll(page.keys, KeyItem)|;
      TextAt(Encoded(page), body + |EncodeAll(page.values[..i], ValueItem)|, EncodeValue(page.values[i]))
  {
    hide Has, TextAt, EncodeAll, EncodeValue, WriteBytes, KeyItem, Encoded;
    ItemAt(page.values, ValueItem, [], i);
    assert Body(page) + [] == Body(page);
    var at := |EncodeAll(page.values[..i], ValueItem)|;
    BodyBehind(page, at, ValueItem(page.values[i]));
    WithLength(Encoded(page), 6 + |EncodeAll(page.keys, KeyItem)| + at, EncodeValue(page.values[i]));
  }

  lemma InnerBody(page: PageData)
    requires !page.isLeaf && page.children != []
    ensures var data, body := Encoded(page), 6 + |EncodeAll(page.keys, KeyItem)|;
      |data| == body + 40 * |page.children|
      && forall j :: 0 <= j < |page.children| ==> ChildAt(data, body + 40 * j, page.children[j])
  {
    hide Has, EncodeAll, KeyItem, ChildItem, Encoded, ChildAt;
    ChildSize();
    FixedSize(page.children, ChildItem, 40);
    EncodedLength(page);
    forall j | 0 <= j < |page.children|
      ensures ChildAt(Encoded(page), 6 + |EncodeAll(page.keys, KeyItem)| + 40 * j, page.children[j])
    {
      ItemAt(page.children, ChildItem, [], j);
      assert Body(page) + [] == Body(page);
      FixedSize(page.children[..j], ChildItem, 40);
      BodyBehind(page, 40 * j, ChildItem(page.children[j]));
      ChildParts(Encoded(page), 6 + |EncodeAll(page.keys, KeyItem)| + 40 * j, page.children[j]);
    }
  }

  lemma ChildSize()
    ensures forall child :: |ChildItem(child)| == 40
  {
    hide EncodeInt64, EncodeDigest;
  }

  /** A child's identifier in eight bytes and its hash in the next 32. */
  ghost predicate ChildAt(data: Bytes, at: int, child: ChildRef) {
    Has(data, at, EncodeInt64(child.pageID)) && Has(data, at + 8, EncodeDigest(child.hash))
  }

  lemma ChildParts(data: Bytes, at: int, child: ChildRef)
    requires Has(data, at, ChildItem(child))
    ensures ChildAt(data, at, child)
  {
    hide EncodeInt64, EncodeDigest;
    var part := ChildItem(child);
    assert data[at..at + 8] == part[..8] && data[at + 8..at + 40] == part[8..];
  }

  lemma WithLength(data: Bytes, at: int, text: Text)
    requires Has(data, at, WriteBytes(text))
    ensures TextAt(data, at, text)
  {
    hide BigEndian;
    var part := WriteBytes(text);
    assert data[at..at + 4] == part[..4] && data[at + 4..at + 4 + |text|] == part[4..];
  }

  // ---- What is hashed ----

  /** The word "NODE" and the two digests, left before right. */
  lemma PairLayout(left: Digest, right: Digest)
    ensures var data := HashedBytes(NodePair(left, right));
      && |data| == 68 && Has(data, 0, [78, 79, 68, 69])
      && Has(data, 4, EncodeDigest(left)) && Has(data, 36, EncodeDigest(right))
  {
    hide Has, EncodeDigest;
    TwoDigests(NODE, left, right);
  }

  lemma TwoDigests(head: Bytes, left: Digest, right: Digest)
    ensures var data := head + (EncodeDigest(left) + EncodeDigest(right));
      && |data| == |head| + 64 && Has(data, 0, head)
      && Has(data, |head|, EncodeDigest(left)) && Has(data, |head| + 32, EncodeDigest(right))
  {
    hide Has, EncodeDigest;
    var both := EncodeDigest(left) + EncodeDigest(right);
    First(head, both);
    First(EncodeDigest(left), EncodeDigest(right));
    First(EncodeDigest(right), []);
    assert EncodeDigest(right) + [] == EncodeDigest(right);
    Then(EncodeDigest(left), EncodeDigest(right), 0, EncodeDigest(right));
    Then(head, both, 0, EncodeDigest(left));
    Then(head, both, 32, EncodeDigest(right));
  }

  /** The word "STATE", the sequence, and then the locator's root before the forest's. */
  lemma StateLayout(sequence: int, locatorRoot: Digest, globalRoot: Digest)
    requires IsInt64(sequence)
    ensures var data := HashedBytes(StateCommitment(sequence, locatorRoot, globalRoot));
      && |data| == 77 && Has(data, 0, [83, 84, 65, 84, 69]) && Has(data, 5, EncodeInt64(sequence))
      && Has(data, 13, EncodeDigest(locatorRoot)) && Has(data, 45, EncodeDigest(globalRoot))
  {
    hide Has, EncodeDigest, EncodeInt64;
    var roots := EncodeDigest(locatorRoot) + EncodeDigest(globalRoot);
    First(STATE, EncodeInt64(sequence) + roots);
    First(EncodeInt64(sequence), roots);
    Then(STATE, EncodeInt64(sequence) + roots, 0, EncodeInt64(sequence));
    TwoDigests(STATE + EncodeInt64(sequence), locatorRoot, globalRoot);
    assert STATE + (EncodeInt64(sequence) + roots) == (STATE + EncodeInt64(sequence)) + roots;
  }

  /** What committing to a tree hashes: the domain, the kind and the region, each with its length, then shard, segment
      and leaf count, and the raw root. */
  ghost predicate CommitmentAt(data: Bytes, kind: Text, regionID: Text, shardID: int, segmentID: int, leafCount: int,
                               rawRoot: Digest) {
    var numbers := 23 + |kind| + |regionID|;
    && TextAt(data, 0, [72, 77, 70, 95, 84, 82, 69, 69, 95, 86, 49]) && TextAt(data, 15, kind)
    && TextAt(data, 19 + |kind|, regionID) && Has(data, numbers, EncodeInt64(shardID))
    && Has(data, numbers + 8, EncodeInt64(segmentID)) && Has(data, numbers + 16, EncodeInt64(leafCount))
    && Has(data, numbers + 24, EncodeDigest(rawRoot)) && |data| == numbers + 56
  }

  lemma CommitmentLayout(p: Preimage)
    requires p.TreeCommitment? && Fits(p)
    ensures CommitmentAt(HashedBytes(p), KindName(p.kind), p.regionID, p.shardID, p.segmentID, p.leafCount, p.rawRoot)
  {
    hide Has, TextAt, EncodeDigest, EncodeInt64, WriteBytes, KindName;
    var d4 := EncodeInt64(p.leafCount) + EncodeDigest(p.rawRoot);
    var d3 := EncodeInt64(p.segmentID) + d4;
    var d2 := EncodeInt64(p.shardID) + d3;
    var d1 := WriteBytes(p.regionID) + d2;
    var d0 := WriteBytes(KindName(p.kind)) + d1;
    First(EncodeDigest(p.rawRoot), []);
    assert EncodeDigest(p.rawRoot) + [] == EncodeDigest(p.rawRoot);
    First(EncodeInt64(p.leafCount), EncodeDigest(p.rawRoot));
    First(EncodeInt64(p.segmentID), d4);
    First(EncodeInt64(p.shardID), d3);
    FirstText(p.regionID, d2);
    FirstText(KindName(p.kind), d1);
    FirstText(TREE_DOMAIN, d0);
    ThenText(WriteBytes(KindName(p.kind)), d1, 0, p.regionID);
    ThenText(WriteBytes(TREE_DOMAIN), d0, 0, KindName(p.kind));
    ThenText(WriteBytes(TREE_DOMAIN), d0, 4 + |KindName(p.kind)|, p.regionID);
    Then(EncodeInt64(p.leafCount), EncodeDigest(p.rawRoot), 0, EncodeDigest(p.rawRoot));
    Then(EncodeInt64(p.segmentID), d4, 0, EncodeInt64(p.leafCount));
    Then(EncodeInt64(p.segmentID), d4, 8, EncodeDigest(p.rawRoot));
    Then(EncodeInt64(p.shardID), d3, 0, EncodeInt64(p.segmentID));
    Then(EncodeInt64(p.shardID), d3, 8, EncodeInt64(p.leafCount));
    Then(EncodeInt64(p.shardID), d3, 16, EncodeDigest(p.rawRoot));
    NumberBehind(TREE_DOMAIN, KindName(p.kind), p.regionID, d2, 0, EncodeInt64(p.shardID));
    NumberBehind(TREE_DOMAIN, KindName(p.kind), p.regionID, d2, 8, EncodeInt64(p.segmentID));
    NumberBehind(TREE_DOMAIN, KindName(p.kind), p.regionID, d2, 16, EncodeInt64(p.leafCount));
    NumberBehind(TREE_DOMAIN, KindName(p.kind), p.regionID, d2, 24, EncodeDigest(p.rawRoot));
  }

  lemma NumberBehind(a: Text, b: Text, c: Text, tail: Bytes, at: nat, part: Bytes)
    requires Has(tail, at, part)
    ensures Has(WriteBytes(a) + (WriteBytes(b) + (WriteBytes(c) + tail)), 12 + |a| + |b| + |c| + at, part)
  {
    hide Has;
    Then(WriteBytes(c), tail, at, part);
    Then(WriteBytes(b), WriteBytes(c) + tail, |WriteBytes(c)| + at, part);
    Then(WriteBytes(a), WriteBytes(b) + (WriteBytes(c) + tail), |WriteBytes(b)| + |WriteBytes(c)| + at, part);
  }

  /** The committed roots of the four layers: "SEGMENT" with shard and segment, "SHARD" with the shard, "REGION" and
      "GLOBAL" without; -1 stands for what a layer does not have. */
  lemma CommittedTrees(regionID: Text, shardID: int, segmentID: int, leafCount: int, rawRoot: Digest)
    requires IsText(regionID) && IsInt64(shardID) && IsInt64(segmentID) && IsInt64(leafCount)
    ensures var segment := Commitment(P.SegmentTree(regionID, shardID, segmentID), leafCount, rawRoot);
      Fits(segment)
      && CommitmentAt(HashedBytes(segment), [83, 69, 71, 77, 69, 78, 84], regionID, shardID, segmentID, leafCount,
                      rawRoot)
    ensures var shard := Commitment(P.ShardTree(regionID, shardID), leafCount, rawRoot);
      Fits(shard) && CommitmentAt(HashedBytes(shard), [83, 72, 65, 82, 68], regionID, shardID, -1, leafCount, rawRoot)
    ensures var region := Commitment(P.RegionTree(regionID), leafCount, rawRoot);
      Fits(region) && CommitmentAt(HashedBytes(region), [82, 69, 71, 73, 79, 78], regionID, -1, -1, leafCount, rawRoot)
    ensures var global := Commitment(P.GLOBAL_TREE, leafCount, rawRoot);
      Fits(global) && CommitmentAt(HashedBytes(global), [71, 76, 79, 66, 65, 76], [], -1, -1, leafCount, rawRoot)
  {
    hide CommitmentAt, HashedBytes;
    CommitmentLayout(Commitment(P.SegmentTree(regionID, shardID, segmentID), leafCount, rawRoot));
    CommitmentLayout(Commitment(P.ShardTree(regionID, shardID), leafCount, rawRoot));
    CommitmentLayout(Commitment(P.RegionTree(regionID), leafCount, rawRoot));
    CommitmentLayout(Commitment(P.GLOBAL_TREE, leafCount, rawRoot));
  }

  /** A leaf page: the word "LEAF", its identifier, whether there is a next page and which, and then each key with its
      value. */
  lemma LeafPageLayout(pageID: int, next: Option<int>, keys: seq<LocatorKey>, values: seq<Option<LocatorValue>>, i: nat)
    requires Fits(LeafPage(pageID, next, keys, values)) && i < |keys|
    ensures var data := HashedBytes(LeafPage(pageID, next, keys, values));
      && Has(data, 0, [76, 69, 65, 70]) && Has(data, 4, EncodeInt64(pageID))
      && Has(data, 12, if next.None? then [0] else [1] + EncodeInt64(next.value))
      && var at := (if next.None? then 13 else 21) + |EncodeAll(Entries(keys, values)[..i], EncodeEntry)|;
         Has(data, at, EncodeKey(keys[i])) && Has(data, at + |EncodeKey(keys[i])|, EncodeValue(values[i]))
  {
    hide Has, EncodeInt64, EncodeKey, EncodeValue, EncodeAll, AllFit;
    var entries := Entries(keys, values);
    var d2 := EncodeAll(entries, EncodeEntry);
    var d1 := NextBytes(next) + d2;
    var entry := entries[i];
    First(LEAF, EncodeInt64(pageID) + d1);
    First(EncodeInt64(pageID), d1);
    First(NextBytes(next), d2);
    Then(LEAF, EncodeInt64(pageID) + d1, 0, EncodeInt64(pageID));
    Behind(EncodeInt64(pageID), d1, 0, NextBytes(next));
    EntryLayout(entries, i);
    var at := |EncodeAll(entries[..i], EncodeEntry)|;
    assert entry == LeafEntry(keys[i], values[i]);
    Then(NextBytes(next), d2, at, EncodeKey(keys[i]));
    Then(NextBytes(next), d2, at + |EncodeKey(keys[i])|, EncodeValue(values[i]));
    Behind(EncodeInt64(pageID), d1, |NextBytes(next)| + at, EncodeKey(keys[i]));
    Behind(EncodeInt64(pageID), d1, |NextBytes(next)| + at + |EncodeKey(keys[i])|, EncodeValue(values[i]));
  }

  lemma EntryLayout(entries: seq<LeafEntry>, i: nat)
    requires i < |entries|
    ensures var data, at := EncodeAll(entries, EncodeEntry), |EncodeAll(entries[..i], EncodeEntry)|;
      && Has(data, at, EncodeKey(entries[i].key))
      && Has(data, at + |EncodeKey(entries[i].key)|, EncodeValue(entries[i].value))
  {
    hide Has, EncodeKey, EncodeValue, EncodeAll, AllFit;
    var data, at := EncodeAll(entries, EncodeEntry), |EncodeAll(entries[..i], EncodeEntry)|;
    var key, value := EncodeKey(entries[i].key), EncodeValue(entries[i].value);
    ItemAt(entries, EncodeEntry, [], i);
    assert data + [] == data && value + [] == value;
    First(key, value);
    First(value, []);
    Then(key, value, 0, value);
    Inside(data, at, EncodeEntry(entries[i]), 0, key);
    Inside(data, at, EncodeEntry(entries[i]), |key|, value);
  }

  lemma Behind(id: Bytes, rest: Bytes, at: nat, part: Bytes)
    requires |id| == 8 && Has(rest, at, part)
    ensures Has(LEAF + (id + rest), 12 + at, part)
  {
    hide Has;
    Then(id, rest, at, part);
    Then(LEAF, id + rest, 8 + at, part);
  }

  /** A part of a part. */
  lemma Inside(data: Bytes, at: int, whole: Bytes, offset: int, part: Bytes)
    requires Has(data, at, whole) && Has(whole, offset, part)
    ensures Has(data, at + offset, part)
  {
    forall k | 0 <= k < |part| ensures data[at + offset + k] == part[k] {
      assert whole[offset + k] == part[k] by { assert whole[offset..offset + |part|][k] == part[k]; }
      assert data[at..at + |whole|][offset + k] == whole[offset + k];
    }
  }

  /** An internal page: the word "INTERNAL", all separators, and then the children's digests. */
  lemma InternalPageLayout(separators: seq<LocatorKey>, childHashes: seq<Digest>)
    requires Fits(InternalPage(separators, childHashes))
    ensures var data, size := HashedBytes(InternalPage(separators, childHashes)), |EncodeAll(separators, EncodeKey)|;
      && Has(data, 0, [73, 78, 84, 69, 82, 78, 65, 76]) && |data| == 8 + size + 32 * |childHashes|
      && (forall i :: 0 <= i < |separators| ==>
            Has(data, 8 + |EncodeAll(separators[..i], EncodeKey)|, EncodeKey(separators[i])))
      && (forall j :: 0 <= j < |childHashes| ==> Has(data, 8 + size + 32 * j, EncodeDigest(childHashes[j])))
  {
    hide Has, EncodeKey, EncodeDigest, EncodeAll, AllFit;
    var keys, children := EncodeAll(separators, EncodeKey), EncodeAll(childHashes, EncodeDigest);
    First(INTERNAL, keys + children);
    forall i | 0 <= i < |separators|
      ensures Has(INTERNAL + (keys + children), 8 + |EncodeAll(separators[..i], EncodeKey)|, EncodeKey(separators[i]))
    {
      SeparatorAt(separators, children, i);
    }
    forall j | 0 <= j < |childHashes|
      ensures Has(INTERNAL + (keys + children), 8 + |keys| + 32 * j, EncodeDigest(childHashes[j]))
    {
      ChildHashAt(keys, childHashes, j);
    }
    DigestSize(childHashes);
  }

  lemma SeparatorAt(separators: seq<LocatorKey>, children: Bytes, i: nat)
    requires i < |separators|
    ensures Has(INTERNAL + (EncodeAll(separators, EncodeKey) + children),
                8 + |EncodeAll(separators[..i], EncodeKey)|, EncodeKey(separators[i]))
  {
    hide Has, EncodeKey, EncodeAll;
    ItemAt(separators, EncodeKey, children, i);
    Then(INTERNAL, EncodeAll(separators, EncodeKey) + children, |EncodeAll(separators[..i], EncodeKey)|,
         EncodeKey(separators[i]));
  }

  lemma ChildHashAt(keys: Bytes, childHashes: seq<Digest>, j: nat)
    requires j < |childHashes|
    ensures Has(INTERNAL + (keys + EncodeAll(childHashes, EncodeDigest)), 8 + |keys| + 32 * j,
                EncodeDigest(childHashes[j]))
  {
    hide Has, EncodeDigest, EncodeAll;
    var children := EncodeAll(childHashes, EncodeDigest);
    ItemAt(childHashes, EncodeDigest, [], j);
    assert children + [] == children;
    var at, part := |EncodeAll(childHashes[..j], EncodeDigest)|, EncodeDigest(childHashes[j]);
    Then(keys, children, at, part);
    Then(INTERNAL, keys + children, |keys| + at, part);
    DigestSize(childHashes[..j]);
    assert at == 32 * j;
  }

  /** What a checkpoint commits to: the bytes of "STATE", its sequence, the locator's root and the forest's root. */
  lemma CheckpointCommitted(sequence: int, locatorRoot: Digest, globalRoot: Digest)
    requires 0 < sequence && IsInt64(sequence)
    ensures exists p ::
      && CommitmentOf(sequence, locatorRoot, globalRoot) == Ok(H(p)) && Fits(p)
      && Has(HashedBytes(p), 0, [83, 84, 65, 84, 69]) && Has(HashedBytes(p), 5, EncodeInt64(sequence))
      && Has(HashedBytes(p), 13, EncodeDigest(locatorRoot)) && Has(HashedBytes(p), 45, EncodeDigest(globalRoot))
      && |HashedBytes(p)| == 77
  {
    hide Has, HashedBytes, EncodeDigest, EncodeInt64;
    var p := StateCommitment(sequence, locatorRoot, globalRoot);
    StateLayout(sequence, locatorRoot, globalRoot);
    assert CommitmentOf(sequence, locatorRoot, globalRoot) == Ok(H(p)) && Fits(p);
  }
}
