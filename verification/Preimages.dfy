/** The bytes that are hashed: different data never has the same bytes, so two preimages with one
    digest are a collision of SHA-256 itself (internal/all/locator_page.go, internal/hmf/commitment.go,
    internal/domain/hash.go, internal/checkpoint/commitment.go). */
module Preimages {
  import opened Hashing
  import opened Encoding
  import opened KeyCodec
  import opened PageCodec

  // "NODE", "LEAF", "INTERNAL", "STATE", "HMF_TREE_V1", "SEGMENT", "SHARD", "REGION" and "GLOBAL".
  const NODE: Bytes := [78, 79, 68, 69]
  const LEAF: Bytes := [76, 69, 65, 70]
  const INTERNAL: Bytes := [73, 78, 84, 69, 82, 78, 65, 76]
  const STATE: Bytes := [83, 84, 65, 84, 69]
  const TREE_DOMAIN: Bytes := [72, 77, 70, 95, 84, 82, 69, 69, 95, 86, 49]

  function KindName(kind: Kind): Bytes {
    match kind
    case SegmentKind => [83, 69, 71, 77, 69, 78, 84]
    case ShardKind => [83, 72, 65, 82, 68]
    case RegionKind => [82, 69, 71, 73, 79, 78]
    case GlobalKind => [71, 76, 79, 66, 65, 76]
  }

  datatype LeafEntry = LeafEntry(key: LocatorKey, value: Option<LocatorValue>)

  function EncodeEntry(entry: LeafEntry): Bytes {
    EncodeKey(entry.key) + EncodeValue(entry.value)
  }

  predicate EntryFits(entry: LeafEntry) {
    KeyFits(entry.key) && ValueFits(entry.value)
  }

  function ReadEntry(data: Bytes): Result<(LeafEntry, Bytes)> {
    var key := ReadKey(data);
    if key.Err? then Err
    else
      var value := ReadValue(key.value.1);
      if value.Err? then Err else Ok((LeafEntry(key.value.0, value.value.0), value.value.1))
  }

  lemma EntryItems()
    ensures Reads(ReadEntry, EncodeEntry, EntryFits)
  {
    hide ReadKey, ReadValue, EncodeKey, EncodeValue, KeyFits, ValueFits;
    forall data: Bytes, entry: LeafEntry, rest: Bytes
      ensures ReadIs(ReadEntry, EncodeEntry, EntryFits, data, entry, rest) {
      var tail := EncodeValue(entry.value) + rest;
      assert EncodeEntry(entry) + rest == EncodeKey(entry.key) + tail;
      ReadKeyIs(data, entry.key, tail);
      ReadValueIs(tail, entry.value, rest);
      if ReadKey(data).Ok? {
        ReadKeyIs(data, ReadKey(data).value.0, ReadKey(data).value.1);
        ReadValueIs(ReadKey(data).value.1, entry.value, rest);
      }
    }
  }

  lemma Keys()
    ensures Reads(ReadKey, EncodeKey, KeyFits)
  {
    hide ReadKey, EncodeKey, KeyFits;
    forall data: Bytes, key: LocatorKey, rest: Bytes ensures ReadIs(ReadKey, EncodeKey, KeyFits, data, key, rest) {
      ReadKeyIs(data, key, rest);
    }
  }

  function ReadDigest(data: Bytes): Result<(Digest, Bytes)> {
    if |data| < 32 then Err else Ok((DecodeDigest(data[..32]), data[32..]))
  }

  predicate AnyDigest(d: Digest) {
    true
  }

  lemma Digests()
    ensures Reads(ReadDigest, EncodeDigest, AnyDigest)
  {
    hide EncodeDigest, DecodeDigest;
    forall data: Bytes, d: Digest, rest: Bytes ensures ReadIs(ReadDigest, EncodeDigest, AnyDigest, data, d, rest) {
      SplitAt(data, EncodeDigest(d), rest);
      if |data| >= 32 { DigestIs(data[..32], d); }
    }
  }

  function Entries(keys: seq<LocatorKey>, values: seq<Option<LocatorValue>>): (r: seq<LeafEntry>)
    requires |keys| == |values|
    ensures |r| == |keys|
  {
    seq(|keys|, i requires 0 <= i < |keys| => LeafEntry(keys[i], values[i]))
  }

  function NextBytes(next: Option<int>): Bytes {
    match next
    case None => [0]
    case Some(id) => [1] + EncodeInt64(id)
  }

  /** What the fields of the hashed data are limited to. */
  ghost predicate Fits(p: Preimage) {
    match p
    case NodePair(_, _) => true
    case TreeCommitment(_, regionID, shardID, segmentID, leafCount, _) => IsText(regionID) && IsInt64(shardID)
    && IsInt64(segmentID) && IsInt64(leafCount)
    case LeafPage(pageID, next, keys, values) =>
      IsInt64(pageID) && (next.Some? ==> IsInt64(next.value)) && |keys| == |values|
      && AllFit(Entries(keys, values), EntryFits)
    case InternalPage(separators, childHashes) => AllFit(separators, KeyFits) && |childHashes| == |separators| + 1
    case StateCommitment(sequence, _, _) => IsInt64(sequence)
  }

  function HashedBytes(p: Preimage): Bytes
    requires Fits(p)
  {
    match p
    case NodePair(left, right) => NODE + (EncodeDigest(left) + EncodeDigest(right))
    case TreeCommitment(kind, regionID, shardID, segmentID, leafCount, rawRoot) =>
      WriteBytes(TREE_DOMAIN) + (WriteBytes(KindName(kind)) + (WriteBytes(regionID)
      + (EncodeInt64(shardID) + (EncodeInt64(segmentID) + (EncodeInt64(leafCount) + EncodeDigest(rawRoot))))))
    case LeafPage(pageID, next, keys, values) =>
      LEAF + (EncodeInt64(pageID) + (NextBytes(next) + EncodeAll(Entries(keys, values), EncodeEntry)))
    case InternalPage(separators, childHashes) => INTERNAL
      + (EncodeAll(separators, EncodeKey) + EncodeAll(childHashes, EncodeDigest))
    case StateCommitment(sequence, locatorRoot, globalRoot) =>
      STATE + (EncodeInt64(sequence) + (EncodeDigest(locatorRoot) + EncodeDigest(globalRoot)))
  }

  // ---- Injectivity ----

  /** The first byte tells the kinds of data apart: the commitment starts with a length below 256. */
  function FirstByte(p: Preimage): byte {
    match p
    case NodePair(_, _) => 78
    case TreeCommitment(_, _, _, _, _, _) => 0
    case LeafPage(_, _, _, _) => 76
    case InternalPage(_, _) => 73
    case StateCommitment(_, _, _) => 83
  }

  lemma StartsWith(p: Preimage)
    requires Fits(p)
    ensures |HashedBytes(p)| > 0 && HashedBytes(p)[0] == FirstByte(p)
  {
    hide EncodeAll, EncodeDigest, EncodeInt64, AllFit;
    if p.TreeCommitment? {
      assert BigEndian(11, 4)[0] == 0;
      assert |WriteBytes(TREE_DOMAIN)| > 0 && WriteBytes(TREE_DOMAIN)[0] == 0;
    }
  }

  lemma Cancel(a: Bytes, b: Bytes, c: Bytes)
    requires a + b == a + c
    ensures b == c
  {
    SplitAt(a + b, a, b);
    SplitAt(a + b, a, c);
  }

  lemma SameInt64(a: int, b: int, restA: Bytes, restB: Bytes)
    requires IsInt64(a) && IsInt64(b) && EncodeInt64(a) + restA == EncodeInt64(b) + restB
    ensures a == b && restA == restB
  {
    hide EncodeInt64, ReadInt64, IsInt64;
    ReadInt64Is(EncodeInt64(a) + restA, a, restA);
    ReadInt64Is(EncodeInt64(a) + restA, b, restB);
  }

  lemma SameText(a: Text, b: Text, restA: Bytes, restB: Bytes)
    requires IsText(a) && IsText(b) && WriteBytes(a) + restA == WriteBytes(b) + restB
    ensures a == b && restA == restB
  {
    hide WriteBytes, ReadBytes;
    ReadBytesIs(WriteBytes(a) + restA, a, restA);
    ReadBytesIs(WriteBytes(a) + restA, b, restB);
  }

  lemma SameDigest(a: Digest, b: Digest, restA: Bytes, restB: Bytes)
    requires EncodeDigest(a) + restA == EncodeDigest(b) + restB
    ensures a == b && restA == restB
  {
    hide EncodeDigest, DecodeDigest;
    SplitAt(EncodeDigest(a) + restA, EncodeDigest(a), restA);
    SplitAt(EncodeDigest(a) + restA, EncodeDigest(b), restB);
    DigestIs(EncodeDigest(a), a);
    DigestIs(EncodeDigest(a), b);
  }

  lemma SameDigests(a: Digest, b: Digest, c: Digest, d: Digest)
    requires EncodeDigest(a) + EncodeDigest(b) == EncodeDigest(c) + EncodeDigest(d)
    ensures a == c && b == d
  {
    hide EncodeDigest;
    SameDigest(a, c, EncodeDigest(b), EncodeDigest(d));
    assert EncodeDigest(b) + [] == EncodeDigest(b) && EncodeDigest(d) + [] == EncodeDigest(d);
    SameDigest(b, d, [], []);
  }

  lemma SameCommitments(p: Preimage, q: Preimage)
    requires p.TreeCommitment? && q.TreeCommitment? && Fits(p) && Fits(q) && HashedBytes(p) == HashedBytes(q)
    ensures p == q
  {
    hide WriteBytes, EncodeInt64, EncodeDigest, KindName, IsText, IsInt64;
    var p3, q3 := EncodeInt64(p.leafCount) + EncodeDigest(p.rawRoot), EncodeInt64(q.leafCount)
      + EncodeDigest(q.rawRoot);
    var p2, q2 := EncodeInt64(p.shardID) + (EncodeInt64(p.segmentID) + p3), EncodeInt64(q.shardID)
      + (EncodeInt64(q.segmentID) + q3);
    var p1, q1 := WriteBytes(p.regionID) + p2, WriteBytes(q.regionID) + q2;
    Cancel(WriteBytes(TREE_DOMAIN), WriteBytes(KindName(p.kind)) + p1, WriteBytes(KindName(q.kind)) + q1);
    KindNames(p.kind, q.kind);
    SameText(KindName(p.kind), KindName(q.kind), p1, q1);
    SameText(p.regionID, q.regionID, p2, q2);
    SameInt64(p.shardID, q.shardID, EncodeInt64(p.segmentID) + p3, EncodeInt64(q.segmentID) + q3);
    SameInt64(p.segmentID, q.segmentID, p3, q3);
    SameInt64(p.leafCount, q.leafCount, EncodeDigest(p.rawRoot), EncodeDigest(q.rawRoot));
    assert EncodeDigest(p.rawRoot) + [] == EncodeDigest(p.rawRoot)
      && EncodeDigest(q.rawRoot) + [] == EncodeDigest(q.rawRoot);
    SameDigest(p.rawRoot, q.rawRoot, [], []);
  }

  lemma KindNames(a: Kind, b: Kind)
    ensures IsText(KindName(a)) && IsText(KindName(b)) && (KindName(a) == KindName(b) ==> a == b)
  {
    assert a != b ==> |KindName(a)| != |KindName(b)| || KindName(a)[0] != KindName(b)[0];
  }

  lemma SameNext(a: Option<int>, b: Option<int>, restA: Bytes, restB: Bytes)
    requires (a.Some? ==> IsInt64(a.value)) && (b.Some? ==> IsInt64(b.value))
      && NextBytes(a) + restA == NextBytes(b) + restB
    ensures a == b && restA == restB
  {
    hide EncodeInt64, IsInt64;
    var data := NextBytes(a) + restA;
    assert data[0] == (if a.None? then 0 else 1) && (NextBytes(b) + restB)[0] == (if b.None? then 0 else 1);
    if a.None? {
      Cancel([0], restA, restB);
    } else {
      assert data == [1] + (EncodeInt64(a.value) + restA)
        && NextBytes(b) + restB == [1] + (EncodeInt64(b.value) + restB);
      Cancel([1], EncodeInt64(a.value) + restA, EncodeInt64(b.value) + restB);
      SameInt64(a.value, b.value, restA, restB);
    }
  }

  /** Items that fill the rest of the data need no count, as none of them is empty. */
  lemma {:induction false} SameRest<T(!new)>(read: Bytes -> Result<(T, Bytes)>, encode: T -> Bytes, fits: T -> bool,
                                             a: seq<T>, b: seq<T>)
    requires Reads(read, encode, fits) && AllFit(a, fits) && AllFit(b, fits) && forall x :: encode(x) != []
    requires EncodeAll(a, encode) == EncodeAll(b, encode)
    ensures a == b
  {
    hide Reads;
    if a != [] && b != [] {
      var data := EncodeAll(a, encode);
      ReadOne(data, read, encode, fits, a[0], EncodeAll(a[1..], encode));
      ReadOne(data, read, encode, fits, b[0], EncodeAll(b[1..], encode));
      SameRest(read, encode, fits, a[1..], b[1..]);
      assert a == [a[0]] + a[1..] && b == [b[0]] + b[1..];
    }
  }

  lemma SameLeaves(p: Preimage, q: Preimage)
    requires p.LeafPage? && q.LeafPage? && Fits(p) && Fits(q) && HashedBytes(p) == HashedBytes(q)
    ensures p == q
  {
    hide EncodeInt64, EncodeAll, IsInt64, AllFit, NextBytes, Reads;
    var p2, q2 := Entries(p.keys, p.values), Entries(q.keys, q.values);
    var p1, q1 := NextBytes(p.next) + EncodeAll(p2, EncodeEntry), NextBytes(q.next) + EncodeAll(q2, EncodeEntry);
    Cancel(LEAF, EncodeInt64(p.pageID) + p1, EncodeInt64(q.pageID) + q1);
    SameInt64(p.pageID, q.pageID, p1, q1);
    SameNext(p.next, q.next, EncodeAll(p2, EncodeEntry), EncodeAll(q2, EncodeEntry));
    EntryItems();
    SameRest(ReadEntry, EncodeEntry, EntryFits, p2, q2);
    SameEntries(p.keys, p.values, q.keys, q.values);
  }

  lemma SameEntries(keys: seq<LocatorKey>, values: seq<Option<LocatorValue>>, keys': seq<LocatorKey>,
                    values': seq<Option<LocatorValue>>)
    requires |keys| == |values| && |keys'| == |values'| && Entries(keys, values) == Entries(keys', values')
    ensures keys == keys' && values == values'
  {
    forall i | 0 <= i < |keys| ensures keys[i] == keys'[i] && values[i] == values'[i] {
      assert Entries(keys, values)[i] == Entries(keys', values')[i];
    }
  }

  /** The number of separators follows from the length of the data, as a key takes more than 32 bytes: of two
      pages, the one with more separators would have more bytes after the separators of the other. */
  lemma {:induction false} SameSeparators(a: seq<LocatorKey>, b: seq<LocatorKey>, childrenA: seq<Digest>,
                                          childrenB: seq<Digest>)
    requires AllFit(a, KeyFits) && AllFit(b, KeyFits) && |childrenA| - |a| == |childrenB| - |b|
    requires EncodeAll(a, EncodeKey) + EncodeAll(childrenA, EncodeDigest)
      == EncodeAll(b, EncodeKey) + EncodeAll(childrenB, EncodeDigest)
    ensures a == b && childrenA == childrenB
  {
    hide EncodeKey, EncodeDigest, KeyFits, AllFit, EncodeAll;
    if a == [] || b == [] {
      NoSeparators(a, b, childrenA, childrenB);
    } else {
      FirstSeparator(a, b, EncodeAll(childrenA, EncodeDigest), EncodeAll(childrenB, EncodeDigest));
      SameSeparators(a[1..], b[1..], childrenA, childrenB);
      assert a == [a[0]] + a[1..] && b == [b[0]] + b[1..];
    }
  }

  lemma FirstSeparator(a: seq<LocatorKey>, b: seq<LocatorKey>, restA: Bytes, restB: Bytes)
    requires AllFit(a, KeyFits) && AllFit(b, KeyFits) && a != [] && b != []
    requires EncodeAll(a, EncodeKey) + restA == EncodeAll(b, EncodeKey) + restB
    ensures a[0] == b[0] && AllFit(a[1..], KeyFits) && AllFit(b[1..], KeyFits)
    ensures EncodeAll(a[1..], EncodeKey) + restA == EncodeAll(b[1..], EncodeKey) + restB
  {
    hide EncodeKey, KeyFits, AllFit, ReadKey;
    var x, y := EncodeAll(a[1..], EncodeKey) + restA, EncodeAll(b[1..], EncodeKey) + restB;
    var data := EncodeAll(a, EncodeKey) + restA;
    assert data == EncodeKey(a[0]) + x && data == EncodeKey(b[0]) + y;
    RestFits(a);
    RestFits(b);
    ReadKeyIs(data, a[0], x);
    ReadKeyIs(data, b[0], y);
  }

  lemma RestFits(keys: seq<LocatorKey>)
    requires AllFit(keys, KeyFits) && keys != []
    ensures AllFit(keys[1..], KeyFits) && KeyFits(keys[0])
  {
    hide KeyFits;
  }

  /** If one page has no separators, neither has the other. */
  lemma NoSeparators(a: seq<LocatorKey>, b: seq<LocatorKey>, childrenA: seq<Digest>, childrenB: seq<Digest>)
    requires AllFit(a, KeyFits) && AllFit(b, KeyFits) && |childrenA| - |a| == |childrenB| - |b| && (a == [] || b == [])
    requires EncodeAll(a, EncodeKey) + EncodeAll(childrenA, EncodeDigest)
      == EncodeAll(b, EncodeKey) + EncodeAll(childrenB, EncodeDigest)
    ensures a == b && childrenA == childrenB
  {
    hide EncodeKey, EncodeDigest, KeyFits, Reads, AllFit, EncodeAll;
    SameLength(EncodeAll(a, EncodeKey), EncodeAll(childrenA, EncodeDigest), EncodeAll(b, EncodeKey),
               EncodeAll(childrenB, EncodeDigest));
    DigestSize(childrenA);
    DigestSize(childrenB);
    KeySize(a);
    KeySize(b);
    assert |a| == |b|;
    OnlyChildren(childrenA, childrenB);
  }

  lemma SameLength(a: Bytes, b: Bytes, c: Bytes, d: Bytes)
    requires a + b == c + d
    ensures |a| + |b| == |c| + |d|
  {
    assert |a + b| == |c + d|;
  }

  lemma OnlyChildren(childrenA: seq<Digest>, childrenB: seq<Digest>)
    requires EncodeAll([], EncodeKey) + EncodeAll(childrenA, EncodeDigest)
      == EncodeAll([], EncodeKey) + EncodeAll(childrenB, EncodeDigest)
    ensures childrenA == childrenB
  {
    hide EncodeKey, EncodeDigest, Reads, AllFit, EncodeAll;
    NoneFirst(childrenA);
    NoneFirst(childrenB);
    Digests();
    SameRest(ReadDigest, EncodeDigest, AnyDigest, childrenA, childrenB);
  }

  lemma NoneFirst(children: seq<Digest>)
    ensures EncodeAll([], EncodeKey) + EncodeAll(children, EncodeDigest) == EncodeAll(children, EncodeDigest)
    ensures AllFit(children, AnyDigest) && forall d :: EncodeDigest(d) != []
  {
    hide EncodeDigest, EncodeKey;
    assert forall d :: |EncodeDigest(d)| == 32;
  }

  lemma {:induction false} DigestSize(digests: seq<Digest>)
    ensures |EncodeAll(digests, EncodeDigest)| == 32 * |digests|
  {
    hide EncodeDigest;
    if digests != [] { DigestSize(digests[1..]); }
  }

  lemma {:induction false} KeySize(keys: seq<LocatorKey>)
    requires AllFit(keys, KeyFits)
    ensures |EncodeAll(keys, EncodeKey)| >= 40 * |keys| && (keys == [] ==> |EncodeAll(keys, EncodeKey)| == 0)
  {
    if keys != [] { KeySize(keys[1..]); }
  }

  /** Data that is hashed is determined by its bytes: across and within all kinds, although no page writes a count. */
  lemma HashedBytesInjective(p: Preimage, q: Preimage)
    requires Fits(p) && Fits(q) && HashedBytes(p) == HashedBytes(q)
    ensures p == q
  {
    hide EncodeInt64, EncodeDigest, EncodeAll, WriteBytes, KindName, NextBytes, AllFit;
    StartsWith(p);
    StartsWith(q);
    match p {
      case NodePair(left, right) =>
        Cancel(NODE, EncodeDigest(left) + EncodeDigest(right), EncodeDigest(q.left) + EncodeDigest(q.right));
        SameDigests(left, right, q.left, q.right);
      case TreeCommitment(_, _, _, _, _, _) => SameCommitments(p, q);
      case LeafPage(_, _, _, _) => SameLeaves(p, q);
      case InternalPage(separators, children) =>
        Cancel(INTERNAL, EncodeAll(separators, EncodeKey) + EncodeAll(children, EncodeDigest),
               EncodeAll(q.separators, EncodeKey) + EncodeAll(q.childHashes, EncodeDigest));
        SameSeparators(separators, q.separators, children, q.childHashes);
      case StateCommitment(sequence, left, right) =>
        var restP, restQ := EncodeDigest(left) + EncodeDigest(right), EncodeDigest(q.locatorRoot)
          + EncodeDigest(q.globalRoot);
        Cancel(STATE, EncodeInt64(sequence) + restP, EncodeInt64(q.sequence) + restQ);
        SameInt64(sequence, q.sequence, restP, restQ);
        SameDigests(left, right, q.locatorRoot, q.globalRoot);
    }
  }
}
