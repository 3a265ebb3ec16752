/** The placement of a region-grouped dataset in the forest (benchmarks/latency/fixture.go). */
module Layout {
  import opened Hashing
  import opened Sorting
  import opened Encoding
  import opened ProofTypes

  /** Region r holds sizes[r] records from ordinal starts[r] on. */
  datatype FairLayout = FairLayout(starts: seq<int>, sizes: seq<int>, shardsPerRegion: int, segmentLeaves: int)

  function Sum(sizes: seq<int>, n: nat): int
    requires n <= |sizes|
  {
    if n == 0 then 0 else Sum(sizes, n - 1) + sizes[n - 1]
  }

  lemma SumNext(sizes: seq<int>, n: nat)
    requires n < |sizes|
    ensures Sum(sizes, n + 1) == Sum(sizes, n) + sizes[n] && Sum(sizes, 0) == 0
  {}

  /** Every region has a record for each of its shards. */
  predicate LargeEnough(sizes: seq<int>, shardsPerRegion: int) {
    forall i :: 0 <= i < |sizes| ==> sizes[i] >= shardsPerRegion
  }

  ghost predicate Consecutive(starts: seq<int>, sizes: seq<int>) {
    |starts| <= |sizes| && forall r :: 0 <= r < |starts| ==> starts[r] == Sum(sizes, r)
  }

  ghost predicate Valid(l: FairLayout) {
    && |l.starts| == |l.sizes| > 0 && l.shardsPerRegion > 0 && l.segmentLeaves > 0
    && LargeEnough(l.sizes, l.shardsPerRegion) && Consecutive(l.starts, l.sizes) && Sum(l.sizes, |l.sizes|) < TWO63
  }

  const TWO63: int := 0x8000_0000_0000_0000

  /** The sum or product as an int64 holds it. */
  function Wrap64(v: int): int {
    (v + TWO63) % TWO64 - TWO63
  }

  method NewFairLayout(regionSizes: seq<int>, shardsPerRegion: int, segmentLeaves: int) returns (r: Result<FairLayout>)
    ensures r.Ok? <==>
      regionSizes != [] && shardsPerRegion > 0 && segmentLeaves > 0 && LargeEnough(regionSizes, shardsPerRegion)
    ensures r.Ok? ==> r.value.sizes == regionSizes
    ensures r.Ok? ==> r.value.shardsPerRegion == shardsPerRegion && r.value.segmentLeaves == segmentLeaves
    ensures r.Ok? ==> (Valid(r.value) <==> Sum(regionSizes, |regionSizes|) < TWO63)
  {
    hide Sum;
    if |regionSizes| == 0 || shardsPerRegion <= 0 || segmentLeaves <= 0 { return Err; }
    var starts, next := [], 0;
    SumNext(regionSizes, 0);
    for i := 0 to |regionSizes|
      invariant |starts| == i && Sum(regionSizes, i) >= 0
      invariant Sum(regionSizes, i) < TWO63 ==> next == Sum(regionSizes, i) && Consecutive(starts, regionSizes)
      invariant forall j :: 0 <= j < i ==> regionSizes[j] >= shardsPerRegion
    {
      if regionSizes[i] < shardsPerRegion { return Err; }
      SumNext(regionSizes, i);
      starts := starts + [next];
      next := Wrap64(next + regionSizes[i]);
    }
    return Ok(FairLayout(starts, regionSizes, shardsPerRegion, segmentLeaves));
  }

  function Total(l: FairLayout): int
    requires |l.starts| == |l.sizes| > 0
  {
    l.starts[|l.starts| - 1] + l.sizes[|l.sizes| - 1]
  }

  // ---- Shards of near-equal size ----

  function ShardStart(size: int, shards: int, s: int): int
    requires shards > 0
  {
    s * (size / shards) + if s < size % shards then s else size % shards
  }

  function ShardSize(size: int, shards: int, s: int): int
    requires shards > 0
  {
    size / shards + if s < size % shards then 1 else 0
  }

  /** The shards of a region follow each other without gaps, none is empty, and together they fill the region. */
  lemma ShardsPartition(size: int, shards: int)
    requires 0 < shards <= size
    ensures ShardStart(size, shards, 0) == 0 && ShardStart(size, shards, shards) == size
    ensures forall s :: 0 <= s < shards ==>
      ShardSize(size, shards, s) > 0
      && ShardStart(size, shards, s + 1) == ShardStart(size, shards, s) + ShardSize(size, shards, s)
  {
    var base, extra := size / shards, size % shards;
    assert size == shards * base + extra;
    assert base >= 1;
    forall s | 0 <= s < shards
      ensures ShardStart(size, shards, s + 1) == ShardStart(size, shards, s) + ShardSize(size, shards, s)
    {
      assert (s + 1) * base == s * base + base;
    }
  }

  /** Of two shards of a region the first has as many records as the second, or one more. */
  lemma ShardsNearEqual(size: int, shards: int, s: int, t: int)
    requires 0 < shards <= size && 0 <= s < t < shards
    ensures ShardSize(size, shards, t) <= ShardSize(size, shards, s) <= ShardSize(size, shards, t) + 1
  {}

  lemma {:induction false} ShardsOrdered(size: int, shards: int, s: int, t: int)
    requires 0 < shards <= size && 0 <= s < t <= shards
    ensures ShardStart(size, shards, s) + ShardSize(size, shards, s) <= ShardStart(size, shards, t)
    decreases t
  {
    hide ShardStart, ShardSize;
    ShardsPartition(size, shards);
    if s < t - 1 { ShardsOrdered(size, shards, s, t - 1); }
    assert ShardSize(size, shards, t - 1) > 0
      && ShardStart(size, shards, t - 1 + 1) == ShardStart(size, shards, t - 1) + ShardSize(size, shards, t - 1);
  }

  lemma {:induction false} StartsOrdered(l: FairLayout, r: int, q: int)
    requires Valid(l) && 0 <= r < q <= |l.sizes|
    ensures Sum(l.sizes, r) < Sum(l.sizes, r) + l.sizes[r] <= Sum(l.sizes, q)
    decreases q
  {
    hide Sum;
    SumNext(l.sizes, q - 1);
    if r < q - 1 { StartsOrdered(l, r, q - 1); }
  }

  // ---- Addresses ----

  /** A record's place: region, shard, segment and leaf. */
  datatype Place = Place(region: int, shard: int, segment: int, leaf: int)

  /** The ordinal is that of the record stored at the place. */
  ghost predicate StoredAt(l: FairLayout, p: Place, ordinal: int)
    requires Valid(l)
  {
    && 0 <= p.region < |l.sizes| && 0 <= p.shard < l.shardsPerRegion && p.segment >= 0 && 0 <= p.leaf < l.segmentLeaves
    && p.segment * l.segmentLeaves + p.leaf < ShardSize(l.sizes[p.region], l.shardsPerRegion, p.shard)
    && ordinal == l.starts[p.region] + ShardStart(l.sizes[p.region], l.shardsPerRegion, p.shard)
      + p.segment * l.segmentLeaves + p.leaf
  }

  /** The region of an ordinal. */
  method RegionOf(l: FairLayout, ordinal: int) returns (region: int)
    requires Valid(l) && 0 <= ordinal < Total(l)
    ensures 0 <= region < |l.sizes| && l.starts[region] <= ordinal < l.starts[region] + l.sizes[region]
  {
    hide Sum;
    var n := |l.starts|;
    SumNext(l.sizes, 0);
    forall i, j | 0 <= i < j < n && l.starts[i] > ordinal ensures l.starts[j] > ordinal { StartsOrdered(l, i, j); }
    var past := (i: int) requires 0 <= i < n => l.starts[i] > ordinal;
    assert forall i, j :: 0 <= i < j < n && past(i) ==> past(j);
    var found: int := Search(n, past);
    assert !past(0);
    region := found - 1;
    assert !past(region);
    SumNext(l.sizes, region);
    if found < n { assert past(found); }
  }

  /** The shard of an offset within a region. */
  method ShardOf(size: int, shards: int, offset: int) returns (shard: int)
    requires 0 < shards <= size && 0 <= offset < size
    ensures 0 <= shard < shards
    ensures ShardStart(size, shards, shard) <= offset < ShardStart(size, shards, shard) + ShardSize(size, shards, shard)
  {
    hide ShardStart, ShardSize;
    ShardsPartition(size, shards);
    forall i, j | 0 <= i < j < shards && ShardStart(size, shards, i) > offset
      ensures ShardStart(size, shards, j) > offset {
      ShardsOrdered(size, shards, i, j);
      assert ShardSize(size, shards, i) > 0;
    }
    var past := (i: int) requires 0 <= i < shards => ShardStart(size, shards, i) > offset;
    assert forall i, j :: 0 <= i < j < shards && past(i) ==> past(j);
    var found: int := Search(shards, past);
    assert !past(0);
    shard := found - 1;
    assert !past(shard) && ShardSize(size, shards, shard) > 0;
    if found < shards { assert past(found); }
  }

  method PlaceOf(l: FairLayout, ordinal: int) returns (p: Place)
    requires Valid(l) && 0 <= ordinal < Total(l)
    ensures StoredAt(l, p, ordinal)
  {
    hide ShardStart, ShardSize, Sum;
    var region := RegionOf(l, ordinal);
    var offset, size, shards := ordinal - l.starts[region], l.sizes[region], l.shardsPerRegion;
    var shard := ShardOf(size, shards, offset);
    offset := offset - ShardStart(size, shards, shard);
    p := Place(region, shard, offset / l.segmentLeaves, offset % l.segmentLeaves);
    assert offset == l.segmentLeaves * (offset / l.segmentLeaves) + offset % l.segmentLeaves;
  }

  /** The ordinal computed for a place; the offset within the shard can wrap around. */
  function OrdinalOf(l: FairLayout, p: Place): Option<int>
    requires |l.starts| == |l.sizes| && l.shardsPerRegion > 0
  {
    if p.region < 0 || p.region >= |l.sizes| then None
    else if p.shard < 0 || p.shard >= l.shardsPerRegion then None
    else if p.leaf < 0 || p.leaf >= l.segmentLeaves || p.segment < 0 then None
    else
      var offset := Wrap64(p.segment * l.segmentLeaves + p.leaf);
      if offset >= ShardSize(l.sizes[p.region], l.shardsPerRegion, p.shard) then None
      else Some(l.starts[p.region] + ShardStart(l.sizes[p.region], l.shardsPerRegion, p.shard) + offset)
  }

  /** The offset of the place within its shard is an int64. */
  predicate OffsetFits(l: FairLayout, p: Place)
    requires l.segmentLeaves > 0
  {
    p.segment <= (TWO63 - 1 - p.leaf) / l.segmentLeaves
  }

  /** The computed ordinal is that of the record stored at the place exactly if the offset did not wrap around. */
  lemma OrdinalIs(l: FairLayout, p: Place, ordinal: int)
    requires Valid(l)
    ensures OrdinalOf(l, p) == Some(ordinal) && OffsetFits(l, p) <==> StoredAt(l, p, ordinal)
  {
    hide ShardStart, ShardSize, Sum;
    Bound(p.segment, l.segmentLeaves, TWO63 - 1 - p.leaf);
    if p.segment >= 0 && p.leaf >= 0 {
      assert p.segment * l.segmentLeaves >= 0;
      if StoredAt(l, p, ordinal) {
        InLayout(l, p, ordinal);
        TotalIs(l);
        ShardFromStart(l, p);
      }
    }
  }

  lemma Bound(q: int, d: int, x: int)
    requires d > 0
    ensures q <= x / d <==> q * d <= x
  {
    if q <= x / d { Multiples(d, q, x / d); }
    if q > x / d { Multiples(d, x / d + 1, q); }
  }

  lemma TotalIs(l: FairLayout)
    requires Valid(l)
    ensures Total(l) == Sum(l.sizes, |l.sizes|) < TWO63
  {
    hide Sum;
    SumNext(l.sizes, |l.sizes| - 1);
  }

  /** Shards start at or after the start of the layout. */
  lemma ShardFromStart(l: FairLayout, p: Place)
    requires Valid(l) && 0 <= p.region < |l.sizes| && 0 <= p.shard < l.shardsPerRegion
    ensures l.starts[p.region] >= 0 && ShardStart(l.sizes[p.region], l.shardsPerRegion, p.shard) >= 0
  {
    hide ShardStart, ShardSize, Sum;
    var size, shards := l.sizes[p.region], l.shardsPerRegion;
    ShardsPartition(size, shards);
    if p.shard > 0 { ShardsOrdered(size, shards, 0, p.shard); assert ShardSize(size, shards, 0) > 0; }
    SumNext(l.sizes, 0);
    if p.region > 0 { StartsOrdered(l, 0, p.region); }
  }

  lemma InLayout(l: FairLayout, p: Place, ordinal: int)
    requires Valid(l) && StoredAt(l, p, ordinal)
    ensures 0 <= ordinal < Total(l)
    ensures l.starts[p.region] <= ordinal < l.starts[p.region] + l.sizes[p.region]
  {
    hide ShardStart, ShardSize, Sum;
    var size, shards := l.sizes[p.region], l.shardsPerRegion;
    ShardsPartition(size, shards);
    ShardsOrdered(size, shards, p.shard, shards);
    if p.shard > 0 { ShardsOrdered(size, shards, 0, p.shard); assert ShardSize(size, shards, 0) > 0; }
    SumNext(l.sizes, 0);
    if p.region > 0 { StartsOrdered(l, 0, p.region); }
    if p.region < |l.sizes| - 1 { StartsOrdered(l, p.region, |l.sizes| - 1); }
    assert p.segment * l.segmentLeaves >= 0;
  }

  /** No ordinal is stored at two places. */
  lemma PlaceUnique(l: FairLayout, p: Place, q: Place, ordinal: int)
    requires Valid(l) && StoredAt(l, p, ordinal) && StoredAt(l, q, ordinal)
    ensures p == q
  {
    hide ShardStart, ShardSize, Sum;
    InLayout(l, p, ordinal);
    InLayout(l, q, ordinal);
    if p.region < q.region { StartsOrdered(l, p.region, q.region); }
    if q.region < p.region { StartsOrdered(l, q.region, p.region); }
    var size, shards := l.sizes[p.region], l.shardsPerRegion;
    assert p.segment * l.segmentLeaves >= 0 && q.segment * l.segmentLeaves >= 0;
    if p.shard < q.shard { ShardsOrdered(size, shards, p.shard, q.shard); }
    if q.shard < p.shard { ShardsOrdered(size, shards, q.shard, p.shard); }
    SameQuotient(l.segmentLeaves, p.segment, p.leaf, q.segment, q.leaf);
  }

  /** Where the record after a place's is: in the next leaf, or in leaf 0 of the next segment if the segment is full, or
      in the first leaf of the next shard if that was the shard's last record, or of the next region if it was the
      region's. */
  ghost function Next(l: FairLayout, p: Place): Place
    requires Valid(l) && 0 <= p.region < |l.sizes|
  {
    if p.segment * l.segmentLeaves + p.leaf + 1 < ShardSize(l.sizes[p.region], l.shardsPerRegion, p.shard) then
      if p.leaf + 1 < l.segmentLeaves then p.(leaf := p.leaf + 1) else Place(p.region, p.shard, p.segment + 1, 0)
    else if p.shard + 1 < l.shardsPerRegion then Place(p.region, p.shard + 1, 0, 0)
    else Place(p.region + 1, 0, 0, 0)
  }

  /** The first record is at the first leaf of all, and each record is followed by the next one. */
  lemma PlacesFollow(l: FairLayout, p: Place, q: Place, ordinal: int)
    requires Valid(l) && StoredAt(l, p, ordinal)
    ensures ordinal == 0 <==> p == Place(0, 0, 0, 0)
    ensures StoredAt(l, q, ordinal + 1) ==> q == Next(l, p)
  {
    hide ShardStart, ShardSize, Sum;
    FirstPlace(l);
    if ordinal == 0 { PlaceUnique(l, p, Place(0, 0, 0, 0), 0); }
    if StoredAt(l, q, ordinal + 1) {
      InLayout(l, q, ordinal + 1);
      NextStored(l, p, ordinal);
      PlaceUnique(l, q, Next(l, p), ordinal + 1);
    }
  }

  lemma FirstPlace(l: FairLayout)
    requires Valid(l)
    ensures StoredAt(l, Place(0, 0, 0, 0), 0)
  {
    hide ShardStart, ShardSize;
    ShardsPartition(l.sizes[0], l.shardsPerRegion);
    assert ShardSize(l.sizes[0], l.shardsPerRegion, 0) > 0;
  }

  lemma NextStored(l: FairLayout, p: Place, ordinal: int)
    requires Valid(l) && StoredAt(l, p, ordinal) && ordinal + 1 < Total(l)
    ensures StoredAt(l, Next(l, p), ordinal + 1)
  {
    hide ShardStart, ShardSize, Sum;
    var size, shards := l.sizes[p.region], l.shardsPerRegion;
    ShardsPartition(size, shards);
    TotalIs(l);
    SumNext(l.sizes, p.region);
    if p.segment * l.segmentLeaves + p.leaf + 1 < ShardSize(size, shards, p.shard) {
      assert (p.segment + 1) * l.segmentLeaves == p.segment * l.segmentLeaves + l.segmentLeaves;
    } else if p.shard + 1 < shards {
      assert ShardStart(size, shards, p.shard + 1)
        == ShardStart(size, shards, p.shard) + ShardSize(size, shards, p.shard);
      assert ShardSize(size, shards, p.shard + 1) > 0;
    } else {
      assert ShardStart(size, shards, p.shard + 1)
        == ShardStart(size, shards, p.shard) + ShardSize(size, shards, p.shard);
      ShardsPartition(l.sizes[p.region + 1], shards);
      assert ShardSize(l.sizes[p.region + 1], shards, 0) > 0;
    }
  }

  lemma SameQuotient(d: int, q: int, r: int, q': int, r': int)
    requires d > 0 && 0 <= r < d && 0 <= r' < d && q * d + r == q' * d + r'
    ensures q == q' && r == r'
  {
    if q < q' { Multiples(d, q + 1, q'); }
    if q' < q { Multiples(d, q' + 1, q); }
  }

  lemma Multiples(d: int, a: int, b: int)
    requires d > 0 && a <= b
    ensures (a - 1) * d + d == a * d <= b * d
  {
    assert b * d == a * d + (b - a) * d;
  }

  // ---- Region names ----

  predicate IsDigit(b: byte) {
    48 <= b <= 57
  }

  /** The decimal digits of a number. */
  function Format(n: nat): (r: Text)
    ensures r != [] && forall i :: 0 <= i < |r| ==> IsDigit(r[i])
  {
    var last := [(48 + n % 10) as byte];
    if n < 10 then last else Format(n / 10) + last
  }

  function DigitsValue(s: Text): int {
    if s == [] then 0 else 10 * DigitsValue(s[..|s| - 1]) + s[|s| - 1] as int - 48
  }

  /** strconv.Atoi: digits, with an optional sign. A number beyond 64 bits is no region in any layout. */
  function Atoi(s: Text): Option<int> {
    var digits := if s != [] && (s[0] == 43 || s[0] == 45) then s[1..] else s;
    if digits == [] || exists i :: 0 <= i < |digits| && !IsDigit(digits[i]) then None
    else Some(if s[0] == 45 then -DigitsValue(digits) else DigitsValue(digits))
  }

  lemma {:induction false} FormatValue(n: nat)
    ensures DigitsValue(Format(n)) == n
  {
    if n >= 10 {
      FormatValue(n / 10);
      assert Format(n)[..|Format(n)| - 1] == Format(n / 10);
    }
  }

  /** "R" and the number of the region. */
  function RegionName(region: nat): Text {
    [82] + Format(region)
  }

  function RegionNumber(name: Text): Option<int> {
    if name == [] || name[0] != 82 then None else Atoi(name[1..])
  }

  lemma NameParses(region: nat)
    ensures RegionNumber(RegionName(region)) == Some(region)
  {
    assert RegionName(region)[1..] == Format(region);
    FormatValue(region);
  }

  function PlaceAt(a: PhysicalAddress, region: int): Place {
    Place(region, a.shardID, a.segmentID, a.leafID)
  }

  /** The ordinal of an address, unless it lies outside the layout. */
  function Ordinal(l: FairLayout, a: PhysicalAddress): Option<int>
    requires |l.starts| == |l.sizes| && l.shardsPerRegion > 0
  {
    var region := RegionNumber(a.regionID);
    if region.None? then None else OrdinalOf(l, PlaceAt(a, region.value))
  }

  lemma PlaceInRange(l: FairLayout, p: Place, ordinal: int)
    requires Valid(l) && StoredAt(l, p, ordinal)
    ensures 0 <= p.region < |l.sizes|
  {}

  /** Every ordinal of the layout has a place. */
  lemma PlaceExists(l: FairLayout, ordinal: int)
    requires Valid(l) && 0 <= ordinal < Total(l)
    ensures exists p :: StoredAt(l, p, ordinal)
  {
    hide ShardStart, ShardSize, Sum;
    TotalIs(l);
    var region := FindRegion(l, ordinal, |l.sizes|);
    var size, shards, offset := l.sizes[region], l.shardsPerRegion, ordinal - l.starts[region];
    ShardsPartition(size, shards);
    var shard := FindShard(size, shards, offset, shards);
    var rest := offset - ShardStart(size, shards, shard);
    assert rest == l.segmentLeaves * (rest / l.segmentLeaves) + rest % l.segmentLeaves;
    assert StoredAt(l, Place(region, shard, rest / l.segmentLeaves, rest % l.segmentLeaves), ordinal);
  }

  lemma {:induction false} FindRegion(l: FairLayout, ordinal: int, n: nat) returns (region: int)
    requires Valid(l) && n <= |l.sizes| && 0 <= ordinal < Sum(l.sizes, n)
    ensures 0 <= region < |l.sizes| && l.starts[region] <= ordinal < l.starts[region] + l.sizes[region]
  {
    hide Sum;
    SumNext(l.sizes, 0);
    SumNext(l.sizes, n - 1);
    if ordinal < Sum(l.sizes, n - 1) { region := FindRegion(l, ordinal, n - 1); } else { region := n - 1; }
  }

  lemma {:induction false} FindShard(size: int, shards: int, offset: int, n: nat) returns (shard: int)
    requires 0 < shards <= size && n <= shards && 0 <= offset < ShardStart(size, shards, n)
    ensures 0 <= shard < shards && ShardStart(size, shards, shard) <= offset
    ensures offset < ShardStart(size, shards, shard) + ShardSize(size, shards, shard)
  {
    hide ShardStart, ShardSize;
    ShardsPartition(size, shards);
    assert ShardSize(size, shards, n - 1) > 0;
    if offset < ShardStart(size, shards, n - 1) {
      shard := FindShard(size, shards, offset, n - 1);
    } else {
      shard := n - 1;
    }
  }

  /** The address of a record: its place, with the region named as the layout names it. */
  ghost function AddressOf(l: FairLayout, ordinal: int): PhysicalAddress
    requires Valid(l) && 0 <= ordinal < Total(l)
  {
    PlaceExists(l, ordinal);
    var p :| StoredAt(l, p, ordinal);
    PlaceInRange(l, p, ordinal);
    PhysicalAddress(RegionName(p.region), p.shard, p.segment, p.leaf)
  }

  lemma AddressIs(l: FairLayout, p: Place, ordinal: int)
    requires Valid(l) && StoredAt(l, p, ordinal)
    ensures p.region >= 0 && 0 <= ordinal < Total(l)
    ensures AddressOf(l, ordinal) == PhysicalAddress(RegionName(p.region), p.shard, p.segment, p.leaf)
  {
    hide StoredAt, Total, RegionName, Sum;
    PlaceInRange(l, p, ordinal);
    InLayout(l, p, ordinal);
    PlaceExists(l, ordinal);
    forall q | StoredAt(l, q, ordinal) ensures q == p { PlaceUnique(l, q, p, ordinal); }
  }

  method Address(l: FairLayout, ordinal: int) returns (a: PhysicalAddress)
    requires Valid(l) && 0 <= ordinal < Total(l)
    ensures a == AddressOf(l, ordinal) && Ordinal(l, a) == Some(ordinal) && Canonical(a)
  {
    hide Sum, ShardStart, ShardSize, OrdinalOf, Format, RegionNumber, Total, StoredAt, AddressOf;
    var p := PlaceOf(l, ordinal);
    AddressIs(l, p, ordinal);
    a := PhysicalAddress(RegionName(p.region), p.shard, p.segment, p.leaf);
    NameParses(p.region);
    OrdinalIs(l, p, ordinal);
  }

  /** The region is written as the layout writes it. */
  predicate Canonical(a: PhysicalAddress) {
    var region := RegionNumber(a.regionID);
    region.Some? && region.value >= 0 && a.regionID == RegionName(region.value)
  }

  /** The segment's number leaves the offset within the shard an int64. */
  predicate SegmentFits(l: FairLayout, a: PhysicalAddress)
    requires l.segmentLeaves > 0
  {
    a.segmentID <= (TWO63 - 1 - a.leafID) / l.segmentLeaves
  }

  /** An accepted address is the address of its ordinal exactly if its region is written without sign and leading zeros
      and its offset does not wrap around. */
  lemma OrdinalInverts(l: FairLayout, a: PhysicalAddress, ordinal: int)
    requires Valid(l) && Ordinal(l, a) == Some(ordinal)
    ensures 0 <= ordinal < Total(l) && AddressOf(l, ordinal) == a <==> Canonical(a) && SegmentFits(l, a)
  {
    hide Sum, ShardStart, ShardSize, OrdinalOf, Format, RegionNumber, StoredAt, Total, AddressOf;
    var p := PlaceAt(a, RegionNumber(a.regionID).value);
    OrdinalIs(l, p, ordinal);
    if Canonical(a) && SegmentFits(l, a) { AddressIs(l, p, ordinal); }
    if 0 <= ordinal < Total(l) && AddressOf(l, ordinal) == a {
      var q := AddressPlace(l, ordinal);
      AddressIs(l, q, ordinal);
      NameParses(q.region);
      OrdinalIs(l, q, ordinal);
    }
  }

  lemma AddressPlace(l: FairLayout, ordinal: int) returns (p: Place)
    requires Valid(l) && 0 <= ordinal < Total(l)
    ensures StoredAt(l, p, ordinal)
  {
    hide StoredAt, Total;
    PlaceExists(l, ordinal);
    p :| StoredAt(l, p, ordinal);
  }

  /** With the benchmark's segments of 2^15 leaves, every accepted address has twins 2^49 segments away. */
  lemma WrappedSegment(l: FairLayout, a: PhysicalAddress, ordinal: int)
    requires Valid(l) && l.segmentLeaves == 0x8000 && Ordinal(l, a) == Some(ordinal)
    ensures var twin := a.(segmentID := a.segmentID + 0x2_0000_0000_0000);
      Ordinal(l, twin) == Some(ordinal) && (Canonical(twin) <==> Canonical(a)) && !SegmentFits(l, twin)
  {
    hide Sum, ShardStart, ShardSize, RegionNumber;
  }

  /** There, segment 2^48 of the first shard is accepted with an ordinal outside the layout. */
  lemma NegativeOrdinal(l: FairLayout)
    requires Valid(l) && l.segmentLeaves == 0x8000
    ensures var a := PhysicalAddress(RegionName(0), 0, 0x1_0000_0000_0000, 0);
      Canonical(a) && Ordinal(l, a) == Some(-TWO63)
  {
    hide Format, RegionNumber;
    NameParses(0);
    SumNext(l.sizes, 0);
    ShardsPartition(l.sizes[0], l.shardsPerRegion);
  }

  /** In every layout the address of a record has a twin, its region written with a sign, that is accepted with the same
      ordinal. */
  lemma SignedRegion(l: FairLayout, a: PhysicalAddress, ordinal: int)
    requires Valid(l) && Canonical(a) && Ordinal(l, a) == Some(ordinal)
    ensures var twin := a.(regionID := [82, 43] + a.regionID[1..]);
      twin != a && Ordinal(l, twin) == Some(ordinal) && !Canonical(twin)
  {
    hide OrdinalOf;
    var region := RegionNumber(a.regionID).value;
    var digits, signed := Format(region), [43] + Format(region);
    var twin: Text := [82, 43] + a.regionID[1..];
    assert a.regionID[1..] == digits && twin[1..] == signed && signed[1..] == digits;
    FormatValue(region);
    assert IsDigit(digits[0]);
    assert Atoi(signed) == Some(region);
    assert RegionName(region)[1] != twin[1];
  }

  /** The first record of every layout is such a record. */
  lemma FirstRecord(l: FairLayout)
    requires Valid(l)
    ensures var first := PhysicalAddress(RegionName(0), 0, 0, 0); Canonical(first) && Ordinal(l, first) == Some(0)
  {
    hide Format, RegionNumber;
    NameParses(0);
    SumNext(l.sizes, 0);
    ShardsPartition(l.sizes[0], l.shardsPerRegion);
  }
}
