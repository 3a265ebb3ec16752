/** Digests, the data that is hashed, and the hash itself, left uninterpreted.

    SHA-256 is the constant `H`, about which nothing is assumed: no theorem of this
    project relies on it being injective. Soundness theorems conclude that a claim holds
    or that two different preimages, one hashed by the verifier and one by the data
    structure it checks, have the same digest. `Preimages` proves that the bytes hashed for
    different preimages differ. */
module Hashing {
  newtype byte = b: int | 0 <= b < 256

  /** Go strings are byte strings, compared bytewise. */
  type Text = seq<byte>

  /** Times are nanoseconds from the Unix epoch; the zero time.Time is the start of year 1, which no clock returns. */
  const ZERO_TIME: int := -62_135_596_800_000_000_000

  /** A [32]byte, read as a big-endian number. */
  newtype Digest = d: int | 0 <= d < 0x1_0000000000000000_0000000000000000_0000000000000000_0000000000000000

  datatype Option<+T> = None | Some(value: T)

  /** The outcome of a Go function returning (value, error); which error is not modelled. */
  datatype Result<+T> = Ok(value: T) | Err {
    predicate IsFailure() {
      Err?
    }

    function PropagateFailure<U>(): Result<U>
      requires Err?
    {
      Err
    }

    function Extract(): T
      requires Ok?
    {
      value
    }
  }

  datatype Kind = SegmentKind | ShardKind | RegionKind | GlobalKind

  datatype LocatorKey = LocatorKey(
    tenantID: Text, serviceID: Text, logType: Text, regionID: Text, eventTime: int, logID: Text)

  datatype LocatorValue = LocatorValue(regionID: Text, shardID: Text, segmentID: Text, leafID: Text)

  /** Everything the program hashes. */
  datatype Preimage =
    | NodePair(left: Digest, right: Digest)
    | TreeCommitment(kind: Kind, regionID: Text, shardID: int, segmentID: int, leafCount: int, rawRoot: Digest)
    | LeafPage(pageID: int, next: Option<int>, keys: seq<LocatorKey>, values: seq<Option<LocatorValue>>)
    | InternalPage(separators: seq<LocatorKey>, childHashes: seq<Digest>)
    | StateCommitment(sequence: int, locatorRoot: Digest, globalRoot: Digest)

  const H: Preimage -> Digest

  function HashPair(left: Digest, right: Digest): Digest {
    H(NodePair(left, right))
  }

  ghost predicate Within(a: set<Preimage>, b: set<Preimage>) {
    forall p {:trigger p in a} :: p in a ==> p in b
  }

  /** A hash collision between something in `a` and something in `b`. */
  ghost predicate Collide(a: set<Preimage>, b: set<Preimage>) {
    exists p, q :: p in a && q in b && p != q && H(p) == H(q)
  }
}
