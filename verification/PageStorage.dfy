/** Pages of the locator tree in a store, and back (UnmarshalStoredPage of internal/all/page_codec.go). */
module PageStorage {
  import opened Hashing
  import opened Encoding
  import opened PageCodec
  import opened LocatorPages
  import opened LocatorTracking
  import opened LocatorTrees

  function ChildRefs(children: seq<int>, hashes: seq<Digest>): (r: seq<ChildRef>)
    requires |children| == |hashes|
    ensures |r| == |children|
  {
    seq(|children|, i requires 0 <= i < |children| => ChildRef(children[i], hashes[i]))
  }

  /** The part of a page that goes into page_data. */
  function DataOf(stored: StoredPage): PageData
    requires |stored.childHashes| == |stored.page.children|
  {
    PageData(stored.page.isLeaf, stored.page.keys, stored.page.values,
             ChildRefs(stored.page.children, stored.childHashes))
  }

  function ContentsOf(stored: StoredPage): Preimage {
    if stored.page.isLeaf then LeafPage(stored.page.pageID, stored.page.next, stored.page.keys, stored.page.values)
    else InternalPage(stored.page.keys, stored.childHashes)
  }

  /** Decoded data with the columns stored beside it. */
  function Restored(data: PageData, pageID: int, parent: Option<int>, next: Option<int>, hash: Digest): StoredPage {
    StoredPage(
      Page(pageID, hash, data.isLeaf, data.keys, data.values, next,
           seq(|data.children|, i requires 0 <= i < |data.children| => data.children[i].pageID), parent),
      seq(|data.children|, i requires 0 <= i < |data.children| => data.children[i].hash))
  }

  lemma RestoredData(data: PageData, pageID: int, parent: Option<int>, next: Option<int>, hash: Digest)
    ensures DataOf(Restored(data, pageID, parent, next, hash)) == data
  {
    assert DataOf(Restored(data, pageID, parent, next, hash)).children == data.children;
  }

  lemma DataRestored(stored: StoredPage)
    requires |stored.childHashes| == |stored.page.children|
    ensures Restored(DataOf(stored), stored.page.pageID, stored.page.parent, stored.page.next, stored.page.hash)
      == stored
  {
    var again := Restored(DataOf(stored), stored.page.pageID, stored.page.parent, stored.page.next, stored.page.hash);
    assert again.page.children == stored.page.children && again.childHashes == stored.childHashes;
  }

  /** The columns and page_data of a page whose hash is that of its contents. */
  ghost predicate IsStoredAs(stored: StoredPage, data: Bytes, pageID: int, parent: Option<int>, next: Option<int>,
                             pageHash: Bytes) {
    && |stored.childHashes| == |stored.page.children| && Encodable(DataOf(stored)) && data == Encoded(DataOf(stored))
    && stored.page.pageID == pageID && stored.page.parent == parent && stored.page.next == next
    && pageHash == EncodeDigest(stored.page.hash) && stored.page.hash == H(ContentsOf(stored))
  }

  /** Accepts exactly the stored forms of pages: `stored` is any page. */
  method UnmarshalStoredPage(data: Bytes, pageID: int, parent: Option<int>, next: Option<int>, pageHash: Bytes,
                             ghost stored: StoredPage)
    returns (r: Result<StoredPage>)
    ensures r.Ok? ==> IsStoredAs(r.value, data, pageID, parent, next, pageHash)
    ensures IsStoredAs(stored, data, pageID, parent, next, pageHash) ==> r == Ok(stored)
  {
    hide Encodable, Encoded, EncodeDigest, DecodeDigest, DataOf, Restored;
    if |pageHash| != 32 { return Err; }
    DigestIs(pageHash, DecodeDigest(pageHash));
    DigestIs(pageHash, stored.page.hash);
    ghost var page := if |stored.childHashes| == |stored.page.children| then DataOf(stored) else PageData(true, [],
                                                                                    [], []);
    var decoded := UnmarshalPage(data, page);
    if decoded.Err? { return Err; }
    var restored := Restored(decoded.value, pageID, parent, next, DecodeDigest(pageHash));
    RestoredColumns(decoded.value, pageID, parent, next, DecodeDigest(pageHash));
    RestoredData(decoded.value, pageID, parent, next, DecodeDigest(pageHash));
    if |stored.childHashes| == |stored.page.children| { DataRestored(stored); }
    if restored.page.hash != H(ContentsOf(restored)) { return Err; }
    return Ok(restored);
  }

  lemma RestoredColumns(data: PageData, pageID: int, parent: Option<int>, next: Option<int>, hash: Digest)
    ensures var r := Restored(data, pageID, parent, next, hash);
      |r.childHashes| == |r.page.children| && r.page.pageID == pageID && r.page.parent == parent && r.page.next == next
      && r.page.hash == hash
  {}

  /** Every page of a locator tree has the hash its stored form is checked against. */
  lemma TreePagesRestore(pages: Pages, spans: Spans, root: int, rootHash: Digest, next: int, height: int, order: int,
                         p: int)
    requires IsTree(pages, spans, root, rootHash, next, height, order) && p in pages
    ensures Stored(pages, pages[p]).page.hash == H(ContentsOf(Stored(pages, pages[p])))
    ensures |Stored(pages, pages[p]).childHashes| == |Stored(pages, pages[p]).page.children|
  {
    hide Shape;
    assert HashOK(pages, p);
  }
}
