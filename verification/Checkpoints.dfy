/** Checkpoint rows and finality state (internal/checkpoint/types.go, validation of internal/checkpoint/service.go,
    row logic of internal/storage/cassandra/checkpoint_store.go), and what a run of the service keeps of them. */
module Checkpoints {
  import opened Hashing

  const MAX_INT64: int := 0x7FFF_FFFF_FFFF_FFFF

  datatype Status = Pending | Finalized

  datatype AnchorReceipt = AnchorReceipt(transactionHash: Text, blockHeight: int, anchoredAt: int)

  datatype Checkpoint = Checkpoint(
    id: Text, systemID: Text, sequence: int, locatorTreeID: Text, locatorRoot: Digest, globalRoot: Digest,
    stateCommitment: Digest,
    status: Status, anchor: Option<AnchorReceipt>, createdAt: int, finalizedAt: Option<int>)

  /** A row of the checkpoint history. */
  datatype CheckpointRow = CheckpointRow(
    systemID: Text, id: Text, sequence: int, locatorRoot: Digest, globalRoot: Digest, stateCommitment: Digest,
    transactionHash: Option<Text>, blockHeight: Option<int>, anchoredAt: Option<int>, finalizedAt: Option<int>,
    createdAt: int)

  /** The single row that names the current checkpoint. */
  datatype FinalityState = FinalityState(
    systemID: Text, id: Text, sequence: int, locatorTreeID: Text, locatorRoot: Digest, globalRoot: Digest,
    stateCommitment: Digest,
    transactionHash: Text, blockHeight: int, anchoredAt: int, finalizedAt: int)

  /** What is stored, and what the anchor has confirmed. */
  datatype Store = Store(history: map<int, CheckpointRow>, finality: Option<FinalityState>,
                         issued: set<(Digest, AnchorReceipt)>)

  function CommitmentOf(sequence: int, locatorRoot: Digest, globalRoot: Digest): Result<Digest> {
    if sequence <= 0 then Err else Ok(H(StateCommitment(sequence, locatorRoot, globalRoot)))
  }

  predicate ReceiptOK(receipt: AnchorReceipt) {
    receipt.transactionHash != [] && receipt.blockHeight >= 0 && receipt.anchoredAt != ZERO_TIME
  }

  /** validateStoredCheckpoint. */
  predicate StoredOK(value: Checkpoint, systemID: Text) {
    && value.systemID == systemID && value.id != [] && value.sequence > 0 && value.locatorTreeID != []
    && value.createdAt != ZERO_TIME
    && CommitmentOf(value.sequence, value.locatorRoot, value.globalRoot) == Ok(value.stateCommitment)
    && match value.status
       case Pending => value.anchor.None? && value.finalizedAt.None?
       case Finalized => value.anchor.Some? && value.finalizedAt.Some? && ReceiptOK(value.anchor.value)
  }

  // ---- Rows ----

  function FinalityFields(row: CheckpointRow): int {
    (if row.transactionHash.Some? then 1 else 0) + (if row.blockHeight.Some? then 1 else 0)
    + (if row.anchoredAt.Some? then 1 else 0) + (if row.finalizedAt.Some? then 1 else 0)
  }

  function CheckpointFromRow(row: CheckpointRow, treeID: Text): Result<Checkpoint> {
    var fields := FinalityFields(row);
    var pending := Checkpoint(row.id, row.systemID, row.sequence, treeID, row.locatorRoot, row.globalRoot,
                              row.stateCommitment, Pending, None, row.createdAt, None);
    if fields != 0 && fields != 4 then Err
    else if fields == 0 then Ok(pending)
    else
      Ok(pending.(status := Finalized, finalizedAt := row.finalizedAt,
                  anchor := Some(AnchorReceipt(row.transactionHash.value, row.blockHeight.value,
                                               row.anchoredAt.value))))
  }

  function RowOf(value: Checkpoint): CheckpointRow {
    CheckpointRow(value.systemID, value.id, value.sequence, value.locatorRoot, value.globalRoot, value.stateCommitment,
                  if value.anchor.Some? then Some(value.anchor.value.transactionHash) else None,
                  if value.anchor.Some? then Some(value.anchor.value.blockHeight) else None,
                  if value.anchor.Some? then Some(value.anchor.value.anchoredAt) else None,
                  value.finalizedAt, value.createdAt)
  }

  function FinalityOf(value: Checkpoint): FinalityState
    requires value.anchor.Some? && value.finalizedAt.Some?
  {
    FinalityState(value.systemID, value.id, value.sequence, value.locatorTreeID, value.locatorRoot, value.globalRoot,
                  value.stateCommitment, value.anchor.value.transactionHash, value.anchor.value.blockHeight,
                  value.anchor.value.anchoredAt, value.finalizedAt.value)
  }

  /** Does a history row fit the finality state read before it? */
  predicate Agrees(state: FinalityState, row: CheckpointRow, treeID: Text) {
    && row.transactionHash == Some(state.transactionHash) && row.blockHeight == Some(state.blockHeight)
    && row.anchoredAt == Some(state.anchoredAt) && row.finalizedAt == Some(state.finalizedAt) && row.id == state.id
    && state.locatorTreeID == treeID && row.locatorRoot == state.locatorRoot && row.globalRoot == state.globalRoot
    && row.stateCommitment == state.stateCommitment
  }

  datatype Current = NotFound | Conflict | Found(value: Result<Checkpoint>)

  /** The second half of CurrentFinalized: the finality state was read before, the history row is read now. */
  function CurrentFrom(finality: Option<FinalityState>, history: map<int, CheckpointRow>, treeID: Text): Current {
    if finality.None? || finality.value.sequence !in history then NotFound
    else
      var row := history[finality.value.sequence];
      if Agrees(finality.value, row, treeID) then Found(CheckpointFromRow(row, finality.value.locatorTreeID))
        else Conflict
  }

  // ---- The invariant ----

  predicate IsFinal(row: CheckpointRow) {
    FinalityFields(row) == 4
  }

  function ReceiptOf(row: CheckpointRow): AnchorReceipt
    requires IsFinal(row)
  {
    AnchorReceipt(row.transactionHash.value, row.blockHeight.value, row.anchoredAt.value)
  }

  /** A row commits to its roots; a finalized row carries a receipt the anchor issued for its commitment. */
  ghost predicate RowOK(s: Store, systemID: Text, k: int)
    requires k in s.history
  {
    var row := s.history[k];
    && row.systemID == systemID && row.sequence == k && row.id != [] && row.createdAt != ZERO_TIME
    && CommitmentOf(k, row.locatorRoot, row.globalRoot) == Ok(row.stateCommitment)
    && (FinalityFields(row) == 0 || IsFinal(row))
    && (IsFinal(row) ==> ReceiptOK(ReceiptOf(row)) && (row.stateCommitment, ReceiptOf(row)) in s.issued)
  }

  /** The sequence the finality state names, 0 if there is none. */
  function Published(s: Store): int {
    if s.finality.None? then 0 else s.finality.value.sequence
  }

  ghost predicate FinalityOK(s: Store, systemID: Text, treeID: Text) {
    && |s.history| - 1 <= Published(s) <= |s.history|
    && (s.finality.Some? ==>
          Published(s) in s.history && IsFinal(s.history[Published(s)]) && s.finality.value.systemID == systemID
          && Agrees(s.finality.value, s.history[Published(s)], treeID))
  }

  /** Sequences run from 1 to n, only the last can be pending, and the finality state names n or n - 1. */
  ghost predicate Consistent(s: Store, systemID: Text, treeID: Text) {
    && (forall k :: k in s.history <==> 1 <= k <= |s.history|)
    && (forall k :: k in s.history ==> RowOK(s, systemID, k) && (k < |s.history| ==> IsFinal(s.history[k])))
    && FinalityOK(s, systemID, treeID)
  }

  /** Roots, identifier and time of a row never change, and a finalized row does not change at all. */
  ghost predicate RowKept(row: CheckpointRow, row': CheckpointRow) {
    && row'.id == row.id && row'.sequence == row.sequence && row'.locatorRoot == row.locatorRoot
    && row'.globalRoot == row.globalRoot
    && row'.stateCommitment == row.stateCommitment && row'.createdAt == row.createdAt && (IsFinal(row) ==> row' == row)
  }

  /** What holds between a store and every later one. */
  ghost predicate Later(s: Store, s': Store) {
    && (forall k :: k in s.history ==> k in s'.history && RowKept(s.history[k], s'.history[k]))
    && Published(s) <= Published(s') && s.issued <= s'.issued
  }

  /** Consistent throughout, each store later than the one before. */
  ghost predicate IsRun(trace: seq<Store>, systemID: Text, treeID: Text) {
    && (forall i :: 0 <= i < |trace| ==> Consistent(trace[i], systemID, treeID))
    && forall i :: 0 <= i < |trace| - 1 ==> Later(trace[i], trace[i + 1])
  }

  lemma LaterSame(s: Store)
    ensures Later(s, s)
  {}

  lemma LaterThrough(a: Store, b: Store, c: Store)
    requires Later(a, b) && Later(b, c)
    ensures Later(a, c)
  {}

  lemma {:induction false} RunLater(trace: seq<Store>, systemID: Text, treeID: Text, i: nat, j: nat)
    requires IsRun(trace, systemID, treeID) && i <= j < |trace|
    ensures Later(trace[i], trace[j])
    decreases j
  {
    hide Consistent, Later;
    if i == j {
      LaterSame(trace[i]);
    } else {
      RunLater(trace, systemID, treeID, i, j - 1);
      assert Later(trace[j - 1], trace[j - 1 + 1]);
      LaterThrough(trace[i], trace[j - 1], trace[j]);
    }
  }

  /** A reader that reads the finality state at one moment and the history row at any later one never meets a
      conflict, and what it gets is a valid finalized checkpoint with a receipt issued for its commitment. */
  lemma ReadersNeverConflict(trace: seq<Store>, systemID: Text, treeID: Text, i: nat, j: nat)
    requires IsRun(trace, systemID, treeID) && i <= j < |trace| && treeID != []
    ensures match CurrentFrom(trace[i].finality, trace[j].history, treeID)
      case NotFound => trace[i].finality.None?
      case Conflict => false
      case Found(r) =>
        r.Ok? && StoredOK(r.value, systemID) && r.value.status == Finalized && r.value.sequence == Published(trace[i])
        && (r.value.stateCommitment, r.value.anchor.value) in trace[i].issued
  {
    RunLater(trace, systemID, treeID, i, j);
    var s := trace[i];
    assert Consistent(s, systemID, treeID);
    if s.finality.Some? { assert RowOK(s, systemID, Published(s)); }
  }
}
