/** Byte encodings of locator keys and values (internal/all/locator_key.go, unmarshalKey and
    unmarshalValue of internal/all/page_codec.go). */
module KeyCodec {
  import opened Hashing
  import opened Encoding

  // ---- Keys ----

  function EncodeKey(key: LocatorKey): Bytes {
    WriteBytes(key.tenantID) + WriteBytes(key.serviceID) + WriteBytes(key.logType) + WriteBytes(key.regionID)
    + EncodeInt64(key.eventTime) + key.logID
  }

  predicate IsText(s: Text) {
    |s| < TWO32
  }

  predicate KeyFits(key: LocatorKey) {
    && IsText(key.tenantID) && IsText(key.serviceID) && IsText(key.logType) && IsText(key.regionID)
    && IsInt64(key.eventTime) && |key.logID| == 16
  }

  function ReadTexts2(data: Bytes): Result<((Text, Text), Bytes)> {
    var a := ReadBytes(data);
    if a.Err? then Err
    else
      var b := ReadBytes(a.value.1);
      if b.Err? then Err else Ok(((a.value.0, b.value.0), b.value.1))
  }

  lemma ReadTexts2Is(data: Bytes, a: Text, b: Text, rest: Bytes)
    ensures ReadTexts2(data) == Ok(((a, b), rest)) <==>
      IsText(a) && IsText(b) && data == WriteBytes(a) + WriteBytes(b) + rest
  {
    hide ReadBytes, WriteBytes;
    ReadBytesIs(data, a, WriteBytes(b) + rest);
    ReadBytesIs(WriteBytes(b) + rest, b, rest);
    assert WriteBytes(a) + WriteBytes(b) + rest == WriteBytes(a) + (WriteBytes(b) + rest);
    if ReadBytes(data).Ok? {
      var (x, after) := ReadBytes(data).value;
      ReadBytesIs(data, x, after);
      ReadBytesIs(after, b, rest);
    }
  }

  function ReadLogID(data: Bytes): Result<(Text, Bytes)> {
    if |data| < 16 then Err else Ok((data[..16], data[16..]))
  }

  /** Reads a key and returns the remaining data. */
  function ReadKey(data: Bytes): Result<(LocatorKey, Bytes)> {
    var first := ReadTexts2(data);
    if first.Err? then Err
    else
      var second := ReadTexts2(first.value.1);
      if second.Err? then Err
      else
        var time := ReadInt64(second.value.1);
        if time.Err? then Err
        else
          var id := ReadLogID(time.value.1);
          if id.Err? then Err
          else
            Ok((LocatorKey(first.value.0.0, first.value.0.1, second.value.0.0, second.value.0.1, time.value.0,
                           id.value.0), id.value.1))
  }

  /** The parts of an encoded key that follow its first two strings, and the last two. */
  function AfterTexts(key: LocatorKey, rest: Bytes): Bytes {
    EncodeInt64(key.eventTime) + (key.logID + rest)
  }

  function AfterTwo(key: LocatorKey, rest: Bytes): Bytes {
    WriteBytes(key.logType) + WriteBytes(key.regionID) + AfterTexts(key, rest)
  }

  lemma KeyParts(key: LocatorKey, rest: Bytes)
    ensures EncodeKey(key) + rest == WriteBytes(key.tenantID) + WriteBytes(key.serviceID) + AfterTwo(key, rest)
  {
    hide WriteBytes, EncodeInt64;
  }

  lemma ReadKeyIs(data: Bytes, key: LocatorKey, rest: Bytes)
    ensures ReadKey(data) == Ok((key, rest)) <==> KeyFits(key) && data == EncodeKey(key) + rest
  {
    hide EncodeKey, ReadTexts2, ReadInt64, WriteBytes, EncodeInt64, IsInt64, IsText;
    KeyParts(key, rest);
    if ReadKey(data) == Ok((key, rest)) {
      ReadTexts2Is(data, key.tenantID, key.serviceID, ReadTexts2(data).value.1);
      var d1 := ReadTexts2(data).value.1;
      ReadTexts2Is(d1, key.logType, key.regionID, ReadTexts2(d1).value.1);
      var d2 := ReadTexts2(d1).value.1;
      ReadInt64Is(d2, key.eventTime, ReadInt64(d2).value.1);
      var d3 := ReadInt64(d2).value.1;
      SplitAt(d3, key.logID, rest);
    }
    if KeyFits(key) && data == EncodeKey(key) + rest {
      ReadTexts2Is(data, key.tenantID, key.serviceID, AfterTwo(key, rest));
      ReadTexts2Is(AfterTwo(key, rest), key.logType, key.regionID, AfterTexts(key, rest));
      ReadInt64Is(AfterTexts(key, rest), key.eventTime, key.logID + rest);
      SplitAt(key.logID + rest, key.logID, rest);
    }
  }

  function UnmarshalKey(data: Bytes): Result<LocatorKey> {
    var r := ReadKey(data);
    if r.Err? || r.value.1 != [] then Err else Ok(r.value.0)
  }

  /** Exactly the encodings of representable keys are accepted. */
  lemma UnmarshalKeyIs(data: Bytes, key: LocatorKey)
    ensures UnmarshalKey(data) == Ok(key) <==> KeyFits(key) && data == EncodeKey(key)
  {
    hide ReadKey, EncodeKey, KeyFits;
    ReadKeyIs(data, key, []);
    assert EncodeKey(key) + [] == EncodeKey(key);
  }

  // ---- Values ----

  function EncodeValue(value: Option<LocatorValue>): Bytes {
    match value
    case None => [0]
    case Some(v) =>
      [1] + WriteBytes(v.regionID) + WriteBytes(v.shardID) + WriteBytes(v.segmentID) + WriteBytes(v.leafID)
  }

  predicate ValueFits(value: Option<LocatorValue>) {
    value.Some? ==>
      IsText(value.value.regionID) && IsText(value.value.shardID) && IsText(value.value.segmentID)
      && IsText(value.value.leafID)
  }

  function ReadValue(data: Bytes): Result<(Option<LocatorValue>, Bytes)> {
    if data == [] then Err
    else if data[0] == 0 then Ok((None, data[1..]))
    else if data[0] != 1 then Err
    else
      var first := ReadTexts2(data[1..]);
      if first.Err? then Err
      else
        var second := ReadTexts2(first.value.1);
        if second.Err? then Err
        else Ok((Some(LocatorValue(first.value.0.0, first.value.0.1, second.value.0.0, second.value.0.1)),
                 second.value.1))
  }

  lemma ReadValueIs(data: Bytes, value: Option<LocatorValue>, rest: Bytes)
    ensures ReadValue(data) == Ok((value, rest)) <==> ValueFits(value) && data == EncodeValue(value) + rest
  {
    hide ReadTexts2, WriteBytes, IsText;
    if value.None? {
      SplitAt(data, [0], rest);
    } else {
      var v := value.value;
      var after := WriteBytes(v.segmentID) + WriteBytes(v.leafID) + rest;
      var tail := WriteBytes(v.regionID) + WriteBytes(v.shardID) + after;
      assert EncodeValue(value) + rest == [1] + tail;
      SplitAt(data, [1], tail);
      if ReadValue(data) == Ok((value, rest)) {
        ReadTexts2Is(data[1..], v.regionID, v.shardID, ReadTexts2(data[1..]).value.1);
        ReadTexts2Is(ReadTexts2(data[1..]).value.1, v.segmentID, v.leafID, rest);
      }
      if ValueFits(value) && data == EncodeValue(value) + rest {
        ReadTexts2Is(tail, v.regionID, v.shardID, after);
        ReadTexts2Is(after, v.segmentID, v.leafID, rest);
      }
    }
  }

  function UnmarshalValue(data: Bytes): Result<Option<LocatorValue>> {
    var r := ReadValue(data);
    if r.Err? || r.value.1 != [] then Err else Ok(r.value.0)
  }

  /** Exactly the encodings of representable values are accepted. */
  lemma UnmarshalValueIs(data: Bytes, value: Option<LocatorValue>)
    ensures UnmarshalValue(data) == Ok(value) <==> ValueFits(value) && data == EncodeValue(value)
  {
    hide ReadValue, EncodeValue, ValueFits;
    ReadValueIs(data, value, []);
    assert EncodeValue(value) + [] == EncodeValue(value);
  }

  // ---- Concatenations ----

  function Concat(parts: seq<Bytes>): Bytes {
    if parts == [] then [] else parts[0] + Concat(parts[1..])
  }

  lemma {:induction false} ConcatLast(parts: seq<Bytes>, last: Bytes)
    ensures Concat(parts + [last]) == Concat(parts) + last
  {
    if parts == [] {
      assert ([] + [last])[1..] == [];
      assert Concat([last]) == last + [];
    } else {
      ConcatLast(parts[1..], last);
      assert (parts + [last])[1..] == parts[1..] + [last];
    }
  }

  lemma {:induction false} ConcatSize(parts: seq<Bytes>, size: nat)
    requires forall i :: 0 <= i < |parts| ==> |parts[i]| >= size
    ensures |Concat(parts)| >= size * |parts|
  {
    if parts != [] { ConcatSize(parts[1..], size); }
  }
}
