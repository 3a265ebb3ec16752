/** The stored form of locator pages (internal/all/page_codec.go). */
module PageCodec {
  import opened Hashing
  import opened Encoding
  import opened KeyCodec

  const PAGE_FORMAT_VERSION: byte := 2

  datatype ChildRef = ChildRef(pageID: int, hash: Digest)

  /** What page_data holds: a page without its identifier, hash, parent and next page. */
  datatype PageData = PageData(isLeaf: bool, keys: seq<LocatorKey>, values: seq<Option<LocatorValue>>,
                               children: seq<ChildRef>)

  // ---- Sequences of items ----

  /** The reader accepts x followed by rest exactly when it is given the encoding of a representable x and rest. */
  ghost predicate ReadIs<T>(read: Bytes -> Result<(T, Bytes)>, encode: T -> Bytes, fits: T -> bool, data: Bytes, x: T,
                            rest: Bytes) {
    read(data) == Ok((x, rest)) <==> fits(x) && data == encode(x) + rest
  }

  ghost predicate Reads<T(!new)>(read: Bytes -> Result<(T, Bytes)>, encode: T -> Bytes, fits: T -> bool) {
    forall data: Bytes, x: T, rest: Bytes :: ReadIs(read, encode, fits, data, x, rest)
  }

  function EncodeAll<T>(items: seq<T>, encode: T -> Bytes): Bytes {
    if items == [] then [] else encode(items[0]) + EncodeAll(items[1..], encode)
  }

  ghost predicate AllFit<T>(items: seq<T>, fits: T -> bool) {
    forall i :: 0 <= i < |items| ==> fits(items[i])
  }

  lemma {:induction false} EncodeLast<T>(items: seq<T>, last: T, encode: T -> Bytes)
    ensures EncodeAll(items + [last], encode) == EncodeAll(items, encode) + encode(last)
  {
    if items == [] {
      assert ([] + [last])[1..] == [];
      assert EncodeAll([last], encode) == encode(last) + [];
    } else {
      EncodeLast(items[1..], last, encode);
      assert (items + [last])[1..] == items[1..] + [last];
    }
  }

  lemma {:induction false} EncodedSize<T>(items: seq<T>, encode: T -> Bytes, size: nat)
    requires forall x :: |encode(x)| >= size
    ensures |EncodeAll(items, encode)| >= size * |items|
  {
    if items != [] { EncodedSize(items[1..], encode, size); }
  }

  /** The loop that appends the encoding of each item. */
  method WriteItems<T>(data0: Bytes, items: seq<T>, encode: T -> Bytes) returns (data: Bytes)
    ensures data == data0 + EncodeAll(items, encode)
  {
    data := data0;
    for i := 0 to |items|
      invariant data == data0 + EncodeAll(items[..i], encode)
    {
      EncodeLast(items[..i], items[i], encode);
      assert items[..i + 1] == items[..i] + [items[i]];
      data := data + encode(items[i]);
    }
    assert items[..|items|] == items;
  }

  /** The loop that reads a number of items; `expected` and `tail` are any items and remaining data. */
  method ReadItems<T(!new)>(data: Bytes, count: nat, read: Bytes -> Result<(T, Bytes)>, ghost encode: T -> Bytes,
                            ghost fits: T -> bool,
                            ghost expected: seq<T>, ghost tail: Bytes) returns (r: Result<(seq<T>, Bytes)>)
    requires Reads(read, encode, fits)
    ensures r.Ok? ==>
      |r.value.0| == count && AllFit(r.value.0, fits) && data == EncodeAll(r.value.0, encode) + r.value.1
    ensures |expected| == count && AllFit(expected, fits) && data == EncodeAll(expected, encode) + tail ==>
      r == Ok((expected, tail))
  {
    hide Reads;
    var items, rest := [], data;
    for i := 0 to count
      invariant |items| == i && AllFit(items, fits) && data == EncodeAll(items, encode) + rest
      invariant |expected| == count && AllFit(expected, fits) && data == EncodeAll(expected, encode) + tail ==>
        items == expected[..i] && rest == EncodeAll(expected[i..], encode) + tail
    {
      var item := read(rest);
      if i < |expected| { ReadNext(rest, read, encode, fits, expected, i, tail); }
      if item.Err? { return Err; }
      ReadOne(rest, read, encode, fits, item.value.0, item.value.1);
      EncodeLast(items, item.value.0, encode);
      items, rest := items + [item.value.0], item.value.1;
    }
    if |expected| == count { AllRead(expected, count, encode, tail); }
    return Ok((items, rest));
  }

  lemma AllRead<T>(expected: seq<T>, count: nat, encode: T -> Bytes, tail: Bytes)
    requires |expected| == count
    ensures expected[..count] == expected && EncodeAll(expected[count..], encode) + tail == tail
  {}

  lemma ReadOne<T(!new)>(data: Bytes, read: Bytes -> Result<(T, Bytes)>, encode: T -> Bytes, fits: T -> bool, x: T,
                         rest: Bytes)
    requires Reads(read, encode, fits)
    ensures read(data) == Ok((x, rest)) <==> fits(x) && data == encode(x) + rest
  {
    assert ReadIs(read, encode, fits, data, x, rest);
  }

  lemma ReadNext<T(!new)>(data: Bytes, read: Bytes -> Result<(T, Bytes)>, encode: T -> Bytes, fits: T -> bool,
                          items: seq<T>, i: nat, tail: Bytes)
    requires Reads(read, encode, fits) && i < |items|
    ensures data == EncodeAll(items[i..], encode) + tail && fits(items[i]) ==>
      read(data) == Ok((items[i], EncodeAll(items[i + 1..], encode) + tail))
  {
    hide Reads;
    var rest := items[i..];
    assert rest[1..] == items[i + 1..];
    var after := EncodeAll(items[i + 1..], encode) + tail;
    assert EncodeAll(rest, encode) + tail == encode(items[i]) + after;
    ReadOne(data, read, encode, fits, items[i], after);
  }

  /** Two sequences of as many items with equal encodings are the same. */
  lemma {:induction false} SameItems<T(!new)>(read: Bytes -> Result<(T, Bytes)>, encode: T -> Bytes, fits: T -> bool,
                                              a: seq<T>, b: seq<T>, restA: Bytes, restB: Bytes)
    requires Reads(read, encode, fits) && AllFit(a, fits) && AllFit(b, fits) && |a| == |b|
    requires EncodeAll(a, encode) + restA == EncodeAll(b, encode) + restB
    ensures a == b && restA == restB
  {
    hide Reads;
    if a != [] {
      var x, y := EncodeAll(a[1..], encode) + restA, EncodeAll(b[1..], encode) + restB;
      var data := EncodeAll(a, encode) + restA;
      assert data == encode(a[0]) + x && data == encode(b[0]) + y;
      ReadOne(data, read, encode, fits, a[0], x);
      ReadOne(data, read, encode, fits, b[0], y);
      SameItems(read, encode, fits, a[1..], b[1..], restA, restB);
      assert a == [a[0]] + a[1..] && b == [b[0]] + b[1..];
    } else {
      assert EncodeAll(a, encode) + restA == restA && EncodeAll(b, encode) + restB == restB;
    }
  }

  // ---- Keys, values and children as items ----

  function KeyItem(key: LocatorKey): Bytes {
    WriteBytes(EncodeKey(key))
  }

  predicate KeyItemFits(key: LocatorKey) {
    KeyFits(key) && |EncodeKey(key)| < TWO32
  }

  function ReadKeyItem(data: Bytes): Result<(LocatorKey, Bytes)> {
    var item := ReadBytes(data);
    if item.Err? then Err
    else
      var key := UnmarshalKey(item.value.0);
      if key.Err? then Err else Ok((key.value, item.value.1))
  }

  lemma KeyItems()
    ensures Reads(ReadKeyItem, KeyItem, KeyItemFits)
  {
    hide ReadBytes, WriteBytes, UnmarshalKey, EncodeKey, KeyFits;
    forall data: Bytes, key: LocatorKey, rest: Bytes
      ensures ReadIs(ReadKeyItem, KeyItem, KeyItemFits, data, key, rest) {
      ReadBytesIs(data, EncodeKey(key), rest);
      UnmarshalKeyIs(EncodeKey(key), key);
      if ReadBytes(data).Ok? {
        ReadBytesIs(data, ReadBytes(data).value.0, ReadBytes(data).value.1);
        UnmarshalKeyIs(ReadBytes(data).value.0, key);
      }
    }
  }

  function ValueItem(value: Option<LocatorValue>): Bytes {
    WriteBytes(EncodeValue(value))
  }

  predicate ValueItemFits(value: Option<LocatorValue>) {
    ValueFits(value) && |EncodeValue(value)| < TWO32
  }

  function ReadValueItem(data: Bytes): Result<(Option<LocatorValue>, Bytes)> {
    var item := ReadBytes(data);
    if item.Err? then Err
    else
      var value := UnmarshalValue(item.value.0);
      if value.Err? then Err else Ok((value.value, item.value.1))
  }

  lemma ValueItems()
    ensures Reads(ReadValueItem, ValueItem, ValueItemFits)
  {
    hide ReadBytes, WriteBytes, UnmarshalValue, EncodeValue, ValueFits;
    forall data: Bytes, value: Option<LocatorValue>, rest: Bytes
      ensures ReadIs(ReadValueItem, ValueItem, ValueItemFits, data, value, rest) {
      ReadBytesIs(data, EncodeValue(value), rest);
      UnmarshalValueIs(EncodeValue(value), value);
      if ReadBytes(data).Ok? {
        ReadBytesIs(data, ReadBytes(data).value.0, ReadBytes(data).value.1);
        UnmarshalValueIs(ReadBytes(data).value.0, value);
      }
    }
  }

  function ChildItem(child: ChildRef): Bytes {
    EncodeInt64(child.pageID) + EncodeDigest(child.hash)
  }

  predicate ChildFits(child: ChildRef) {
    IsInt64(child.pageID)
  }

  function ReadChildItem(data: Bytes): Result<(ChildRef, Bytes)> {
    var id := ReadInt64(data);
    if id.Err? || |id.value.1| < 32 then Err
    else Ok((ChildRef(id.value.0, DecodeDigest(id.value.1[..32])), id.value.1[32..]))
  }

  lemma ChildItems()
    ensures Reads(ReadChildItem, ChildItem, ChildFits)
  {
    hide ReadInt64, EncodeInt64, EncodeDigest, DecodeDigest, IsInt64;
    forall data: Bytes, child: ChildRef, rest: Bytes
      ensures ReadIs(ReadChildItem, ChildItem, ChildFits, data, child, rest) {
      var tail := EncodeDigest(child.hash) + rest;
      assert ChildItem(child) + rest == EncodeInt64(child.pageID) + tail;
      ReadInt64Is(data, child.pageID, tail);
      SplitAt(tail, EncodeDigest(child.hash), rest);
      DigestIs(EncodeDigest(child.hash), child.hash);
      if ReadInt64(data).Ok? {
        var (id, after) := ReadInt64(data).value;
        ReadInt64Is(data, id, after);
        if |after| >= 32 {
          DigestIs(after[..32], child.hash);
          SplitAt(after, EncodeDigest(child.hash), rest);
        }
      }
    }
  }

  // ---- Pages ----

  function Body(page: PageData): Bytes {
    if page.isLeaf then EncodeAll(page.values, ValueItem) else EncodeAll(page.children, ChildItem)
  }

  function Encoded(page: PageData): Bytes {
    [PAGE_FORMAT_VERSION, if page.isLeaf then 1 else 0] + BigEndian(|page.keys|, 4)
      + (EncodeAll(page.keys, KeyItem) + Body(page))
  }

  /** A page all of whose numbers and lengths are representable. */
  ghost predicate Encodable(page: PageData) {
    AllFit(page.keys, KeyItemFits) && BodyFits(page)
  }

  ghost predicate BodyFits(page: PageData) {
    if page.isLeaf
      then page.children == [] && |page.values| == |page.keys| < TWO32 && AllFit(page.values, ValueItemFits)
    else page.values == [] && |page.children| == |page.keys| + 1 < TWO32 && AllFit(page.children, ChildFits)
  }

  method MarshalPage(page: PageData) returns (r: Result<Bytes>)
    ensures r.Ok? <==> if page.isLeaf then |page.keys| == |page.values| else |page.children| == |page.keys| + 1
    ensures r.Ok? ==> r.value == Encoded(page)
  {
    hide EncodeAll, BigEndian, KeyItem, ValueItem, ChildItem;
    if page.isLeaf && |page.keys| != |page.values| { return Err; }
    if !page.isLeaf && |page.children| != |page.keys| + 1 { return Err; }
    var data: Bytes := [PAGE_FORMAT_VERSION, if page.isLeaf then 1 else 0] + BigEndian(|page.keys|, 4);
    data := WriteItems(data, page.keys, KeyItem);
    if page.isLeaf { data := WriteItems(data, page.values, ValueItem); }
    else { data := WriteItems(data, page.children, ChildItem); }
    return Ok(data);
  }

  /** Accepts exactly the encodings of representable pages: `page` is any page. */
  method UnmarshalPage(data: Bytes, ghost page: PageData) returns (r: Result<PageData>)
    ensures r.Ok? ==> Encodable(r.value) && Encoded(r.value) == data
    ensures Encodable(page) && Encoded(page) == data ==> r == Ok(page)
  {
    hide EncodeAll, BigEndian, KeyItem, ReadUint32, Reads, AllFit, BodyFits, Body;
    if |data| < 2 { return Err; }
    if data[0] != PAGE_FORMAT_VERSION { return Err; }
    if data[1] != 0 && data[1] != 1 { return Err; }
    var isLeaf := data[1] == 1;
    var counted := ReadUint32(data[2..]);
    if Encodable(page) && Encoded(page) == data { HeaderRead(page); }
    if counted.Err? { return Err; }
    var (count, rest) := counted.value;
    ReadUint32Is(data[2..], count, rest);
    if count > |rest| / 4 { return Err; }
    KeyItems();
    var keysRead := ReadItems(rest, count, ReadKeyItem, KeyItem, KeyItemFits, page.keys, Body(page));
    if keysRead.Err? { return Err; }
    var (keys, body) := keysRead.value;
    r := UnmarshalBody(isLeaf, keys, body, page);
    if r.Ok? { HeaderOf(data, r.value, rest); }
  }

  lemma HeaderOf(data: Bytes, page: PageData, rest: Bytes)
    requires |data| >= 2 && data[0] == PAGE_FORMAT_VERSION && data[1] == (if page.isLeaf then 1 else 0)
    requires data[2..] == BigEndian(|page.keys|, 4) + rest && rest == EncodeAll(page.keys, KeyItem) + Body(page)
    ensures Encoded(page) == data
  {
    hide EncodeAll, BigEndian, KeyItem, Body;
    SplitAt(data, data[..2], data[2..]);
    assert data[..2] == [data[0], data[1]];
  }

  method UnmarshalBody(isLeaf: bool, keys: seq<LocatorKey>, body: Bytes,
                       ghost page: PageData) returns (r: Result<PageData>)
    requires |keys| < TWO32
    ensures r.Ok? ==> r.value.isLeaf == isLeaf && r.value.keys == keys && BodyFits(r.value) && Body(r.value) == body
    ensures page.isLeaf == isLeaf && page.keys == keys && BodyFits(page) && Body(page) == body ==> r == Ok(page)
  {
    hide EncodeAll, ValueItem, ChildItem, Reads, AllFit;
    var count := |keys|;
    if BodyFits(page) { BodySize(page); }
    if isLeaf {
      if count > |body| / 4 { return Err; }
      ValueItems();
      NothingAfter(page.values, ValueItem);
      var valuesRead := ReadItems(body, count, ReadValueItem, ValueItem, ValueItemFits, page.values, []);
      if valuesRead.Err? || valuesRead.value.1 != [] { return Err; }
      NothingAfter(valuesRead.value.0, ValueItem);
      return Ok(PageData(true, keys, valuesRead.value.0, []));
    } else {
      if count + 1 > |body| / 40 { return Err; }
      ChildItems();
      NothingAfter(page.children, ChildItem);
      // The loop's bound is a uint32: after the greatest count it wraps around to zero.
      var childrenRead := ReadItems(body, (count + 1) % TWO32, ReadChildItem, ChildItem, ChildFits, page.children, []);
      if childrenRead.Err? || childrenRead.value.1 != [] { return Err; }
      NothingAfter(childrenRead.value.0, ChildItem);
      return Ok(PageData(false, keys, [], childrenRead.value.0));
    }
  }

  lemma NothingAfter<T>(items: seq<T>, encode: T -> Bytes)
    ensures EncodeAll(items, encode) + [] == EncodeAll(items, encode)
      && (items == [] ==> EncodeAll(items, encode) == [])
  {}

  lemma BodySize(page: PageData)
    requires BodyFits(page)
    ensures |Body(page)| >= (if page.isLeaf then 4 * |page.keys| else 40 * (|page.keys| + 1))
  {
    hide AllFit, EncodeAll;
    EncodedSize(page.values, ValueItem, 4);
    EncodedSize(page.children, ChildItem, 40);
  }

  /** The counts written for a page pass the reader's checks on the remaining length. */
  lemma HeaderRead(page: PageData)
    requires Encodable(page)
    ensures var rest := EncodeAll(page.keys, KeyItem) + Body(page);
      && Encoded(page)[2..] == BigEndian(|page.keys|, 4) + rest
      && ReadUint32(Encoded(page)[2..]) == Ok((|page.keys|, rest))
      && |page.keys| <= |rest| / 4
  {
    hide BigEndian, ReadUint32, AllFit, EncodeAll;
    var rest := EncodeAll(page.keys, KeyItem) + Body(page);
    var head := [PAGE_FORMAT_VERSION, if page.isLeaf then 1 else 0];
    assert Encoded(page) == head + (BigEndian(|page.keys|, 4) + rest);
    SplitAt(Encoded(page), head, BigEndian(|page.keys|, 4) + rest);
    ReadUint32Is(Encoded(page)[2..], |page.keys|, rest);
    EncodedSize(page.keys, KeyItem, 4);
  }

  /** Different pages have different encodings. */
  lemma EncodedInjective(a: PageData, b: PageData)
    requires Encodable(a) && Encodable(b) && Encoded(a) == Encoded(b)
    ensures a == b
  {
    hide EncodeAll, BigEndian, KeyItem, ValueItem, ChildItem, ReadUint32, Reads, AllFit;
    assert Encoded(a)[1] == (if a.isLeaf then 1 else 0) && Encoded(b)[1] == (if b.isLeaf then 1 else 0);
    HeaderRead(a);
    HeaderRead(b);
    KeyItems();
    SameItems(ReadKeyItem, KeyItem, KeyItemFits, a.keys, b.keys, Body(a), Body(b));
    if a.isLeaf {
      ValueItems();
      SameItems(ReadValueItem, ValueItem, ValueItemFits, a.values, b.values, [], []);
    } else {
      ChildItems();
      SameItems(ReadChildItem, ChildItem, ChildFits, a.children, b.children, [], []);
    }
  }
}
