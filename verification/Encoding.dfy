/** Byte encodings of numbers, strings, keys and values (internal/all/locator_key.go and the
    readers of internal/all/page_codec.go). A reader of x accepts exactly the encodings of x. */
module Encoding {
  import opened Hashing

  type Bytes = seq<byte>

  // ---- Numbers ----

  function Pow256(n: nat): nat {
    if n == 0 then 1 else 256 * Pow256(n - 1)
  }

  /** The last n bytes of a number, most significant first. */
  function BigEndian(v: nat, n: nat): (r: Bytes)
    ensures |r| == n
  {
    if n == 0 then [] else BigEndian(v / 256, n - 1) + [(v % 256) as byte]
  }

  function Number(b: Bytes): nat {
    if b == [] then 0 else 256 * Number(b[..|b| - 1]) + b[|b| - 1] as int
  }

  lemma {:induction false} NumberOfBytes(v: nat, n: nat)
    requires v < Pow256(n)
    ensures Number(BigEndian(v, n)) == v
  {
    if n > 0 {
      NumberOfBytes(v / 256, n - 1);
      assert BigEndian(v, n)[..n - 1] == BigEndian(v / 256, n - 1);
    }
  }

  lemma {:induction false} BytesOfNumber(b: Bytes)
    ensures Number(b) < Pow256(|b|) && BigEndian(Number(b), |b|) == b
  {
    if b != [] { BytesOfNumber(b[..|b| - 1]); }
  }

  lemma PowAdd(a: nat, b: nat)
    ensures Pow256(a + b) == Pow256(a) * Pow256(b)
  {
    if a > 0 { PowAdd(a - 1, b); }
  }

  const TWO32: nat := 0x1_0000_0000
  const TWO64: nat := 0x1_0000_0000_0000_0000

  lemma Powers()
    ensures Pow256(4) == TWO32 && Pow256(8) == TWO64
    ensures Pow256(32) == 0x1_0000000000000000_0000000000000000_0000000000000000_0000000000000000
  {
    PowAdd(1, 1);
    PowAdd(2, 2);
    PowAdd(4, 4);
    PowAdd(8, 8);
    PowAdd(16, 16);
  }

  predicate IsInt64(v: int) {
    -0x8000_0000_0000_0000 <= v < 0x8000_0000_0000_0000
  }

  /** Two's complement, big-endian. */
  function EncodeInt64(v: int): (r: Bytes)
    ensures |r| == 8
  {
    BigEndian(v % TWO64, 8)
  }

  function DecodeInt64(b: Bytes): int {
    var n := Number(b);
    if n < TWO64 / 2 then n else n - TWO64
  }

  function EncodeDigest(d: Digest): (r: Bytes)
    ensures |r| == 32
  {
    BigEndian(d as int, 32)
  }

  function DecodeDigest(b: Bytes): Digest
    requires |b| == 32
  {
    BytesOfNumber(b);
    Powers();
    Number(b) as Digest
  }

  lemma Int64Is(b: Bytes, v: int)
    requires |b| == 8
    ensures DecodeInt64(b) == v <==> IsInt64(v) && b == EncodeInt64(v)
  {
    hide Number, BigEndian, Pow256;
    Powers();
    BytesOfNumber(b);
    NumberOfBytes(v % TWO64, 8);
    Complement(Number(b), v);
  }

  /** A number below 2^64 stands for v in two's complement exactly if it is v modulo 2^64. */
  lemma Complement(n: nat, v: int)
    requires n < TWO64
    ensures (if n < TWO64 / 2 then n else n - TWO64) == v <==> IsInt64(v) && n == v % TWO64
  {
    if IsInt64(v) {
      if v < 0 { assert (v + TWO64) % TWO64 == v % TWO64; }
    }
  }

  lemma DigestIs(b: Bytes, d: Digest)
    requires |b| == 32
    ensures DecodeDigest(b) == d <==> b == EncodeDigest(d)
  {
    Powers();
    BytesOfNumber(b);
    NumberOfBytes(d as int, 32);
  }

  // ---- Readers return what they read and the remaining data ----

  function ReadInt64(data: Bytes): Result<(int, Bytes)> {
    if |data| < 8 then Err else Ok((DecodeInt64(data[..8]), data[8..]))
  }

  function ReadUint32(data: Bytes): Result<(nat, Bytes)> {
    if |data| < 4 then Err else Ok((Number(data[..4]), data[4..]))
  }

  /** A length of four bytes and then the data; a longer length is cut to 32 bits. */
  function WriteBytes(v: Bytes): Bytes {
    BigEndian(|v|, 4) + v
  }

  function ReadBytes(data: Bytes): Result<(Bytes, Bytes)> {
    var length := ReadUint32(data);
    if length.Err? then Err
    else
      var (n, rest) := length.value;
      if n > |rest| then Err else Ok((rest[..n], rest[n..]))
  }

  lemma SplitAt(data: Bytes, a: Bytes, rest: Bytes)
    ensures |data| >= |a| && data[..|a|] == a && data[|a|..] == rest <==> data == a + rest
  {}

  lemma ReadInt64Is(data: Bytes, v: int, rest: Bytes)
    ensures ReadInt64(data) == Ok((v, rest)) <==> IsInt64(v) && data == EncodeInt64(v) + rest
  {
    SplitAt(data, EncodeInt64(v), rest);
    if |data| >= 8 { Int64Is(data[..8], v); }
  }

  lemma ReadUint32Is(data: Bytes, v: nat, rest: Bytes)
    ensures ReadUint32(data) == Ok((v, rest)) <==> v < TWO32 && data == BigEndian(v, 4) + rest
  {
    Powers();
    SplitAt(data, BigEndian(v, 4), rest);
    if |data| >= 4 { BytesOfNumber(data[..4]); }
    if v < TWO32 { NumberOfBytes(v, 4); }
  }

  lemma ReadBytesIs(data: Bytes, v: Bytes, rest: Bytes)
    ensures ReadBytes(data) == Ok((v, rest)) <==> |v| < TWO32 && data == WriteBytes(v) + rest
  {
    ReadUint32Is(data, |v|, v + rest);
    assert WriteBytes(v) + rest == BigEndian(|v|, 4) + (v + rest);
    if ReadUint32(data).Ok? {
      var (n, after) := ReadUint32(data).value;
      if n <= |after| {
        ReadUint32Is(data, n, after);
        SplitAt(after, v, rest);
        if n == |v| { SplitAt(after, after[..n], after[n..]); }
      }
    }
  }
}
