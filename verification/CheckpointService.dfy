/** The checkpoint service over its store (internal/checkpoint/service.go,
    internal/storage/cassandra/checkpoint_store.go).

    Every read may fail; every write may fail with or without having landed. A failure ends the call that met it, so a
    crash at any point is a call in which every later operation fails. The trace lists every state of the store, and
    `failures` counts the operations that have failed. */
module CheckpointService {
  import opened Hashing
  import opened Checkpoints

  datatype RootSnapshot = RootSnapshot(locatorTreeID: Text, locatorRoot: Digest, globalRoot: Digest)

  datatype Latest = NoCheckpoint | Failed | Loaded(value: Checkpoint)

  ghost predicate LastPending(s: Store, value: Checkpoint, treeID: Text) {
    |s.history| in s.history && CheckpointFromRow(s.history[|s.history|], treeID) == Ok(value)
    && value.status == Pending
  }

  ghost predicate LastFinal(s: Store, value: Checkpoint, treeID: Text) {
    |s.history| in s.history && CheckpointFromRow(s.history[|s.history|], treeID) == Ok(value)
    && value.status == Finalized
  }

  /** A finalized checkpoint that can be published: the last row, or its finalized form with an issued receipt. */
  ghost predicate Publishable(s: Store, value: Checkpoint, systemID: Text, treeID: Text) {
    && StoredOK(value, systemID) && value.status == Finalized && value.locatorTreeID == treeID
    && |s.history| in s.history
    && value.sequence == |s.history| && RowKept(s.history[|s.history|], RowOf(value))
    && (value.stateCommitment, value.anchor.value) in s.issued
  }

  class Service {
    const systemID: Text
    const treeID: Text
    var store: Store
    ghost var trace: seq<Store>
    ghost var failures: nat

    ghost predicate Valid()
      reads this
    {
      systemID != [] && treeID != [] && trace != [] && trace[|trace| - 1] == store && IsRun(trace, systemID, treeID)
    }

    /** The trace only grows. */
    twostate predicate Continues()
      reads this
    {
      |old(trace)| <= |trace| && trace[..|old(trace)|] == old(trace)
    }

    constructor (systemID: Text, treeID: Text)
      requires systemID != [] && treeID != []
      ensures Valid() && store == Store(map[], None, {}) && trace == [store]
    {
      this.systemID, this.treeID := systemID, treeID;
      store := Store(map[], None, {});
      trace := [Store(map[], None, {})];
      failures := 0;
    }

    ghost method Record()
      requires systemID != [] && treeID != [] && trace != [] && IsRun(trace, systemID, treeID)
      requires Consistent(store, systemID, treeID) && Later(trace[|trace| - 1], store)
      modifies this`trace
      ensures Valid() && trace == old(trace) + [store]
    {
      RunGrows(trace, store, systemID, treeID);
      trace := trace + [store];
    }

    // ---- Store operations ----

    /** A write that may fail, landed or not; only a write known to have landed succeeds. */
    method UpsertCheckpoint(row: CheckpointRow) returns (ok: bool)
      requires Valid() && Consistent(store.(history := store.history[row.sequence := row]), systemID, treeID)
      requires Later(store, store.(history := store.history[row.sequence := row]))
      modifies this
      ensures Valid() && Continues()
      ensures (store == old(store) || store == old(store).(history := old(store).history[row.sequence := row]))
      ensures ok ==> store == old(store).(history := old(store).history[row.sequence := row])
      ensures failures == old(failures) + if ok then 0 else 1
    {
      hide Consistent, Later;
      var landed, answered := *, *;
      if landed {
        store := store.(history := store.history[row.sequence := row]);
        Record();
      }
      ok := landed && answered;
      failures := failures + if ok then 0 else 1;
    }

    method UpsertFinality(state: FinalityState) returns (ok: bool)
      requires Valid() && Consistent(store.(finality := Some(state)), systemID, treeID)
      requires Later(store, store.(finality := Some(state)))
      modifies this
      ensures Valid() && Continues() && (store == old(store) || store == old(store).(finality := Some(state)))
      ensures ok ==> store == old(store).(finality := Some(state))
      ensures failures == old(failures) + if ok then 0 else 1
    {
      hide Consistent, Later;
      var landed, answered := *, *;
      if landed {
        store := store.(finality := Some(state));
        Record();
      }
      ok := landed && answered;
      failures := failures + if ok then 0 else 1;
    }

    /** The anchor confirms a commitment; a confirmation that is lost on the way has been issued all the same. A receipt
        that is not in order counts as a failure. */
    method Commit(commitment: Digest) returns (r: Result<AnchorReceipt>)
      requires Valid()
      modifies this
      ensures Valid() && Continues() && store.history == old(store).history && store.finality == old(store).finality
      ensures r.Ok? ==> (commitment, r.value) in store.issued
      ensures failures == old(failures) + if r.Ok? && ReceiptOK(r.value) then 0 else 1
    {
      hide Consistent, Later;
      var landed, answered := *, *;
      var receipt: AnchorReceipt := *;
      if landed {
        IssueKeeps(store, commitment, receipt, systemID, treeID);
        store := store.(issued := store.issued + {(commitment, receipt)});
        Record();
      }
      r := if landed && answered then Ok(receipt) else Err;
      failures := failures + if r.Ok? && ReceiptOK(r.value) then 0 else 1;
    }

    /** The row with the greatest sequence; only a read that fails does not find it. */
    method LatestCheckpoint() returns (r: Latest)
      requires Valid()
      modifies this`failures
      ensures Valid()
      ensures r.NoCheckpoint? ==> |store.history| == 0
      ensures r.Loaded? ==> LastPending(store, r.value, treeID) || LastFinal(store, r.value, treeID)
      ensures failures == old(failures) + if r.Failed? then 1 else 0
    {
      var answered := *;
      if !answered {
        failures := failures + 1;
        return Failed;
      }
      LastIs(store, systemID, treeID);
      var n := |store.history|;
      if n !in store.history { return NoCheckpoint; }
      var value := CheckpointFromRow(store.history[n], treeID);
      return if value.Err? then Failed else Loaded(value.value);
    }

    /** Two reads, between which this service writes nothing. */
    method CurrentFinalized() returns (r: Current, answered: bool)
      requires Valid()
      modifies this`failures
      ensures Valid()
      ensures answered ==> r == CurrentFrom(store.finality, store.history, treeID)
      ensures failures == old(failures) + if answered then 0 else 1
    {
      answered := *;
      failures := failures + if answered then 0 else 1;
      r := CurrentFrom(store.finality, store.history, treeID);
    }

    /** Adds a pending checkpoint after the last, published one. */
    method SavePending(value: Checkpoint) returns (r: Result<Checkpoint>)
      requires Valid() && value.sequence == |store.history| + 1 && Published(store) == |store.history|
      requires value.systemID == systemID
      requires CommitmentOf(value.sequence, value.locatorRoot, value.globalRoot) == Ok(value.stateCommitment)
      requires value.createdAt != ZERO_TIME
      modifies this
      ensures Valid() && Continues() && |old(store).history| <= |store.history| <= |old(store).history| + 1
      ensures r.Ok? ==>
        r.value == value.(id := r.value.id) && LastPending(store, r.value, treeID) && |store.history| == value.sequence
      ensures failures >= old(failures) && (r.Ok? ==> r.value.id != [])
      ensures
        value.status == Pending && value.anchor.None? && value.finalizedAt.None? && value.locatorTreeID == treeID ==>
          (r.Ok? <==> failures == old(failures))
      ensures value.locatorTreeID != treeID ==> r.Err? && failures == old(failures)
    {
      hide IsRun, Consistent, Later, LastPending, StoredOK;
      if value.status != Pending || value.anchor.Some? || value.finalizedAt.Some? { return Err; }
      if value.locatorTreeID != treeID { return Err; }
      var id := value.id;
      if id == [] {
        // The text of a time-based UUID.
        assert [48] != [];
        id :| id != [];
      }
      var stored := value.(id := id);
      Last();
      PendingKeeps(store, stored, systemID, treeID);
      var ok := UpsertCheckpoint(RowOf(stored));
      return if ok then Ok(stored) else Err;
    }

    /** Writes the row, then the finality state; each write may fail. */
    method PublishFinalized(value: Checkpoint) returns (ok: bool)
      requires Valid()
      requires
        value.status == Finalized && value.locatorTreeID == treeID && value.anchor.Some? && value.finalizedAt.Some? ==>
          Publishable(store, value, systemID, treeID)
      modifies this
      ensures Valid() && Continues() && |store.history| == |old(store).history|
      ensures ok ==>
        LastFinal(store, value, treeID) && value.anchor.Some? && value.finalizedAt.Some?
        && store.finality == Some(FinalityOf(value))
      ensures failures >= old(failures)
      ensures
        value.status == Finalized && value.locatorTreeID == treeID && value.anchor.Some? && value.finalizedAt.Some? ==>
          (ok <==> failures == old(failures))
    {
      hide IsRun, Consistent, Later, LastFinal, Publishable, StoredOK;
      if value.status != Finalized || value.anchor.None? || value.finalizedAt.None? { return false; }
      if value.locatorTreeID != treeID { return false; }
      Last();
      FinalKeeps(store, value, systemID, treeID);
      ok := UpsertCheckpoint(RowOf(value));
      if !ok { return false; }
      Last();
      FinalityKeeps(store, value, systemID, treeID);
      ok := UpsertFinality(FinalityOf(value));
    }

    // ---- The service ----

    method AnchorAndPublish(pending: Checkpoint) returns (r: Result<Checkpoint>)
      requires Valid() && LastPending(store, pending, treeID) && StoredOK(pending, systemID)
      modifies this
      ensures Valid() && Continues() && |store.history| == |old(store).history|
      ensures r.Ok? ==>
        LastFinal(store, r.value, treeID) && r.value.anchor.Some? && r.value.finalizedAt.Some?
        && store.finality == Some(FinalityOf(r.value)) && RowKept(RowOf(pending), RowOf(r.value))
      ensures failures >= old(failures) && (r.Ok? <==> failures == old(failures))
    {
      hide IsRun, Consistent, Later, LastFinal, LastPending, Publishable, StoredOK, RowKept;
      var receipt := Commit(pending.stateCommitment);
      if receipt.Err? { return Err; }
      if !ReceiptOK(receipt.value) { return Err; }
      var finalizedAt: int := *;
      var result := pending.(status := Finalized, anchor := Some(receipt.value), finalizedAt := Some(finalizedAt));
      SameLast(old(store), store, pending, treeID);
      Last();
      CanPublish(store, pending, result, receipt.value, systemID, treeID);
      PendingTree(pending, old(store), treeID);
      var ok := PublishFinalized(result);
      return if ok then Ok(result) else Err;
    }

    /** Captures one state, or resumes the last checkpoint, anchors and publishes it; `source` is what the state source
        answers. */
    method Finalize(source: Result<RootSnapshot>) returns (r: Result<Checkpoint>)
      requires Valid()
      modifies this
      ensures Valid() && Continues() && |old(store).history| <= |store.history| <= |old(store).history| + 1
      ensures r.Ok? ==>
        LastFinal(store, r.value, treeID) && r.value.anchor.Some? && r.value.finalizedAt.Some?
        && store.finality == Some(FinalityOf(r.value))
      ensures r.Ok? && |store.history| > |old(store).history| ==>
        source.Ok? && r.value.locatorRoot == source.value.locatorRoot && r.value.globalRoot == source.value.globalRoot
      ensures r.Ok? && |store.history| == |old(store).history| ==>
        |store.history| in old(store).history && RowKept(old(store).history[|store.history|], RowOf(r.value))
      ensures r.Ok? ==> FinalOK(r.value, systemID)
      ensures r.Ok? <==> failures == old(failures) && (Unfinished(old(store)) || Capturable(old(store), source, treeID))
    {
      hide IsRun, Consistent, Later, LastFinal, LastPending, Publishable, StoredOK, RowKept, CurrentFrom, Published,
        FinalOK;
      var latest := LatestCheckpoint();
      Last();
      var last := 0;
      match latest {
        case Failed => return Err;
        case NoCheckpoint => NothingPublished(store, systemID, treeID);
        case Loaded(value) =>
          LoadedOK(store, value, systemID, treeID);
          if !StoredOK(value, systemID) { return Err; }
          LoadedIs(store, value, systemID, treeID);
          if value.status == Pending {
            r := AnchorAndPublish(value);
            if r.Ok? { FinalNow(r.value); }
            return;
          }
          var current, answered := CurrentFinalized();
          if !answered { return Err; }
          CurrentIs(store, value, systemID, treeID);
          match current {
            case Conflict => return Err;
            case NotFound =>
              var ok := PublishFinalized(value);
              if ok { FinalNow(value); }
              return if ok then Ok(value) else Err;
            case Found(found) =>
              if found.Err? { return Err; }
              if !StoredOK(found.value, systemID) || found.value.status != Finalized
                || found.value.sequence > value.sequence {
                return Err;
              }
              if found.value.sequence == value.sequence && found.value.stateCommitment != value.stateCommitment {
                return Err;
              }
              if found.value.sequence < value.sequence {
                var ok := PublishFinalized(value);
                if ok { FinalNow(value); }
                return if ok then Ok(value) else Err;
              }
              if value.sequence == MAX_INT64 { return Err; }
              last := value.sequence;
          }
      }
      r := Capture(last + 1, source);
      if r.Ok? { FinalNow(r.value); }
    }

    /** Saves a checkpoint of the state the source answered with, and anchors and publishes it. */
    method Capture(sequence: int, source: Result<RootSnapshot>) returns (r: Result<Checkpoint>)
      requires Valid() && !Unfinished(store) && sequence == |store.history| + 1
      modifies this
      ensures Valid() && Continues() && |old(store).history| <= |store.history| <= |old(store).history| + 1
      ensures r.Ok? ==>
        LastFinal(store, r.value, treeID) && r.value.anchor.Some? && r.value.finalizedAt.Some?
        && store.finality == Some(FinalityOf(r.value))
      ensures r.Ok? ==>
        |store.history| == sequence && source.Ok? && r.value.locatorRoot == source.value.locatorRoot
        && r.value.globalRoot == source.value.globalRoot
      ensures failures >= old(failures)
      ensures r.Ok? <==> failures == old(failures) && source.Ok? && source.value.locatorTreeID == treeID
    {
      hide IsRun, Consistent, Later, LastFinal, LastPending, Publishable, StoredOK, RowKept;
      Last();
      AllPublished(store, systemID, treeID);
      if source.Err? || source.value.locatorTreeID == [] { return Err; }
      var commitment := CommitmentOf(sequence, source.value.locatorRoot, source.value.globalRoot);
      if commitment.Err? { return Err; }
      var createdAt: int :| createdAt != ZERO_TIME;
      var pending := Checkpoint([], systemID, sequence, source.value.locatorTreeID, source.value.locatorRoot,
                                source.value.globalRoot, commitment.value, Pending, None, createdAt, None);
      var stored := SavePending(pending);
      if stored.Err? { return Err; }
      SavedOK(stored.value, systemID);
      if !StoredOK(stored.value, systemID) { return Err; }
      r := AnchorAndPublish(stored.value);
      if r.Ok? { KeptRoots(RowOf(stored.value), RowOf(r.value)); }
    }

    lemma FinalNow(value: Checkpoint)
      requires Valid() && LastFinal(store, value, treeID)
      ensures FinalOK(value, systemID)
    {
      hide Consistent, Later, LastFinal, FinalOK;
      Last();
      FinalIsOK(store, value, systemID, treeID);
    }

    lemma Last()
      requires Valid()
      ensures Consistent(store, systemID, treeID)
    {
      hide Consistent, Later;
    }
  }

  // ---- What the writes keep ----

  lemma RunGrows(trace: seq<Store>, s: Store, systemID: Text, treeID: Text)
    requires trace != [] && IsRun(trace, systemID, treeID) && Consistent(s, systemID, treeID)
    requires Later(trace[|trace| - 1], s)
    ensures IsRun(trace + [s], systemID, treeID)
  {
    hide Consistent, Later;
    var longer := trace + [s];
    forall i | 0 <= i < |longer| - 1 ensures Later(longer[i], longer[i + 1]) {
      if i < |trace| - 1 { assert Later(trace[i], trace[i + 1]); }
    }
  }

  lemma LastIs(s: Store, systemID: Text, treeID: Text)
    requires Consistent(s, systemID, treeID)
    ensures |s.history| in s.history <==> |s.history| > 0
  {
    hide RowOK;
  }

  lemma IssueKeeps(s: Store, commitment: Digest, receipt: AnchorReceipt, systemID: Text, treeID: Text)
    requires Consistent(s, systemID, treeID)
    ensures var s' := s.(issued := s.issued + {(commitment, receipt)}); Consistent(s', systemID, treeID) && Later(s, s')
  {
    var s' := s.(issued := s.issued + {(commitment, receipt)});
    forall k | k in s'.history ensures RowOK(s', systemID, k) && (k < |s'.history| ==> IsFinal(s'.history[k])) {
      assert RowOK(s, systemID, k);
    }
  }

  lemma PendingKeeps(s: Store, value: Checkpoint, systemID: Text, treeID: Text)
    requires Consistent(s, systemID, treeID) && Published(s) == |s.history| && value.sequence == |s.history| + 1
    requires value.systemID == systemID
    requires value.id != [] && value.status == Pending && value.anchor.None? && value.finalizedAt.None?
    requires value.createdAt != ZERO_TIME
    requires CommitmentOf(value.sequence, value.locatorRoot, value.globalRoot) == Ok(value.stateCommitment)
    requires value.locatorTreeID == treeID
    ensures var s' := s.(history := s.history[value.sequence := RowOf(value)]);
      Consistent(s', systemID, treeID) && Later(s, s') && LastPending(s', value, treeID)
      && |s'.history| == value.sequence
  {
    hide RowOK, RowKept, FinalityOK;
    var n := value.sequence;
    var s' := s.(history := s.history[n := RowOf(value)]);
    NextRow(s, value, systemID, treeID);
    assert |s'.history| == n;
    forall k | k in s'.history ensures RowOK(s', systemID, k) && (k < n ==> IsFinal(s'.history[k])) {
      if k != n {
        OldRow(s, value, systemID, treeID, k);
        if k == |s.history| { LastPublished(s, systemID, treeID); }
      }
    }
    forall k | k in s.history ensures k in s'.history && RowKept(s.history[k], s'.history[k]) {
      OldRow(s, value, systemID, treeID, k);
    }
    FinalityBehind(s, value, systemID, treeID);
  }

  lemma NextRow(s: Store, value: Checkpoint, systemID: Text, treeID: Text)
    requires Consistent(s, systemID, treeID) && value.sequence == |s.history| + 1 && value.systemID == systemID
    requires value.id != [] && value.status == Pending && value.anchor.None? && value.finalizedAt.None?
    requires value.createdAt != ZERO_TIME
    requires CommitmentOf(value.sequence, value.locatorRoot, value.globalRoot) == Ok(value.stateCommitment)
    requires value.locatorTreeID == treeID
    ensures var s' := s.(history := s.history[value.sequence := RowOf(value)]);
      value.sequence !in s.history && RowOK(s', systemID, value.sequence)
      && CheckpointFromRow(s'.history[value.sequence], treeID) == Ok(value)
  {}

  lemma OldRow(s: Store, value: Checkpoint, systemID: Text, treeID: Text, k: int)
    requires Consistent(s, systemID, treeID) && value.sequence == |s.history| + 1 && k in s.history
    ensures var s' := s.(history := s.history[value.sequence := RowOf(value)]);
      k in s'.history && s'.history[k] == s.history[k] && RowOK(s', systemID, k) && RowKept(s.history[k], s'.history[k])
  {
    assert RowOK(s, systemID, k);
  }

  lemma FinalityBehind(s: Store, value: Checkpoint, systemID: Text, treeID: Text)
    requires Consistent(s, systemID, treeID) && Published(s) == |s.history| && value.sequence == |s.history| + 1
    ensures FinalityOK(s.(history := s.history[value.sequence := RowOf(value)]), systemID, treeID)
  {
    hide RowOK, Agrees;
    assert value.sequence !in s.history;
  }

  lemma LastPublished(s: Store, systemID: Text, treeID: Text)
    requires Consistent(s, systemID, treeID) && Published(s) == |s.history| && |s.history| in s.history
    ensures IsFinal(s.history[|s.history|])
  {
    hide RowOK, Agrees;
  }

  lemma FinalKeeps(s: Store, value: Checkpoint, systemID: Text, treeID: Text)
    requires Consistent(s, systemID, treeID) && Publishable(s, value, systemID, treeID)
    ensures var s' := s.(history := s.history[value.sequence := RowOf(value)]);
      Consistent(s', systemID, treeID) && Later(s, s') && Publishable(s', value, systemID, treeID)
      && s'.history[value.sequence] == RowOf(value)
      && |s'.history| == |s.history|
  {
    var n := value.sequence;
    var s' := s.(history := s.history[n := RowOf(value)]);
    assert |s'.history| == |s.history|;
    forall k | k in s'.history ensures RowOK(s', systemID, k) && (k < |s'.history| ==> IsFinal(s'.history[k])) {
      assert RowOK(s, systemID, k);
    }
  }

  lemma FinalityKeeps(s: Store, value: Checkpoint, systemID: Text, treeID: Text)
    requires Consistent(s, systemID, treeID) && Publishable(s, value, systemID, treeID)
    requires s.history[value.sequence] == RowOf(value)
    ensures value.anchor.Some? && value.finalizedAt.Some?
    ensures var s' := s.(finality := Some(FinalityOf(value)));
      Consistent(s', systemID, treeID) && Later(s, s') && LastFinal(s', value, treeID)
  {
    var s' := s.(finality := Some(FinalityOf(value)));
    forall k | k in s'.history ensures RowOK(s', systemID, k) && (k < |s'.history| ==> IsFinal(s'.history[k])) {
      assert RowOK(s, systemID, k);
    }
  }

  lemma SameLast(s: Store, s': Store, value: Checkpoint, treeID: Text)
    requires s'.history == s.history && LastPending(s, value, treeID)
    ensures LastPending(s', value, treeID)
  {}

  /** An anchored pending checkpoint can be published. */
  lemma CanPublish(s: Store, pending: Checkpoint, result: Checkpoint, receipt: AnchorReceipt, systemID: Text,
                   treeID: Text)
    requires Consistent(s, systemID, treeID) && LastPending(s, pending, treeID) && StoredOK(pending, systemID)
    requires ReceiptOK(receipt) && (pending.stateCommitment, receipt) in s.issued
    requires result == pending.(status := Finalized, anchor := Some(receipt), finalizedAt := result.finalizedAt)
    requires result.finalizedAt.Some?
    ensures Publishable(s, result, systemID, treeID) && RowKept(RowOf(pending), RowOf(result))
  {
    assert RowOK(s, systemID, |s.history|);
  }

  lemma KeptRoots(row: CheckpointRow, row': CheckpointRow)
    requires RowKept(row, row')
    ensures row'.locatorRoot == row.locatorRoot && row'.globalRoot == row.globalRoot
  {}

  lemma NothingPublished(s: Store, systemID: Text, treeID: Text)
    requires Consistent(s, systemID, treeID) && |s.history| == 0
    ensures Published(s) == 0
  {}

  lemma LoadedIs(s: Store, value: Checkpoint, systemID: Text, treeID: Text)
    requires Consistent(s, systemID, treeID) && StoredOK(value, systemID)
    requires (LastPending(s, value, treeID) || LastFinal(s, value, treeID))
    ensures value.sequence == |s.history| && |s.history| in s.history && RowKept(s.history[|s.history|], RowOf(value))
    ensures value.status == Pending ==> LastPending(s, value, treeID)
    ensures value.status == Finalized ==> Publishable(s, value, systemID, treeID)
    ensures RowOf(value) == s.history[|s.history|]
  {
    assert RowOK(s, systemID, |s.history|);
  }

  /** The last checkpoint is pending, or finalized but not published yet. */
  predicate Unfinished(s: Store) {
    Published(s) < |s.history|
  }

  /** The source answers with a state of the configured locator, and the last sequence is not the greatest int64. */
  predicate Capturable(s: Store, source: Result<RootSnapshot>, treeID: Text) {
    source.Ok? && source.value.locatorTreeID == treeID && |s.history| != MAX_INT64
  }

  lemma AllPublished(s: Store, systemID: Text, treeID: Text)
    requires Consistent(s, systemID, treeID) && !Unfinished(s)
    ensures Published(s) == |s.history|
  {
    hide RowOK;
  }

  /** A finalized checkpoint: a commitment to its sequence and roots, and a receipt with nothing missing. */
  ghost predicate FinalOK(value: Checkpoint, systemID: Text) {
    && value.systemID == systemID && value.id != [] && value.sequence > 0 && value.locatorTreeID != []
    && value.stateCommitment == H(StateCommitment(value.sequence, value.locatorRoot, value.globalRoot))
    && value.anchor.Some? && value.anchor.value.transactionHash != [] && value.anchor.value.blockHeight >= 0
    && value.anchor.value.anchoredAt != ZERO_TIME
  }

  lemma FinalIsOK(s: Store, value: Checkpoint, systemID: Text, treeID: Text)
    requires Consistent(s, systemID, treeID) && LastFinal(s, value, treeID) && treeID != []
    ensures FinalOK(value, systemID)
  {
    assert RowOK(s, systemID, |s.history|);
  }

  lemma PendingTree(value: Checkpoint, s: Store, treeID: Text)
    requires LastPending(s, value, treeID)
    ensures value.locatorTreeID == treeID
  {}

  lemma SavedOK(value: Checkpoint, systemID: Text)
    requires value.systemID == systemID && value.id != [] && value.sequence > 0 && value.locatorTreeID != []
    requires value.createdAt != ZERO_TIME && value.status == Pending && value.anchor.None? && value.finalizedAt.None?
    requires CommitmentOf(value.sequence, value.locatorRoot, value.globalRoot) == Ok(value.stateCommitment)
    ensures StoredOK(value, systemID)
  {}

  /** The last row of a consistent store is in order, and it is pending only if it is not published. */
  lemma LoadedOK(s: Store, value: Checkpoint, systemID: Text, treeID: Text)
    requires Consistent(s, systemID, treeID) && treeID != []
    requires LastPending(s, value, treeID) || LastFinal(s, value, treeID)
    ensures StoredOK(value, systemID) && value.locatorTreeID == treeID && value.sequence == |s.history|
    ensures value.status == Pending ==> Published(s) < |s.history|
    ensures value.status == Finalized ==> LastFinal(s, value, treeID)
  {
    assert RowOK(s, systemID, |s.history|);
  }

  /** What a reader finds without interleaving: nothing if nothing is published, and else the published checkpoint. */
  lemma CurrentIs(s: Store, value: Checkpoint, systemID: Text, treeID: Text)
    requires Consistent(s, systemID, treeID) && treeID != [] && LastFinal(s, value, treeID)
    ensures match CurrentFrom(s.finality, s.history, treeID)
      case NotFound => Published(s) < |s.history|
      case Conflict => false
      case Found(r) =>
        r.Ok? && StoredOK(r.value, systemID) && r.value.status == Finalized
        && r.value.sequence == Published(s) <= |s.history|
        && (Published(s) == |s.history| ==> r.value.stateCommitment == value.stateCommitment)
  {
    assert RowOK(s, systemID, |s.history|);
    if s.finality.Some? { assert RowOK(s, systemID, Published(s)); }
  }
}
