/** Which orders of persisting the updates of a run leave a storage that holds the last forest. Each shard's worker
    hands over its own updates in the order it made them, but the updates of different shards may interleave in any way
    (internal/hm/manager.go:144-152, internal/hm/segment_worker.go:55-60). */
module PersistenceOrder {
  import opened Hashing
  import opened Merkle
  import opened NodeStore
  import opened FixedTrees
  import opened PersistedNodes
  import opened Forests
  import opened HierarchicalForest
  import opened ForestTrees
  import opened Planner
  import opened ProofBuilding
  import opened StoredForest
  import opened Persistence
  import opened UpdateOrder
  import opened UpdatePositions

  predicate Known(updates: seq<Update>, order: seq<nat>) {
    forall i :: 0 <= i < |order| ==> order[i] < |updates|
  }

  /** The updates of one shard, in the order they are persisted. */
  function OfShard(updates: seq<Update>, order: seq<nat>, key: ShardKey): seq<nat>
    requires Known(updates, order)
  {
    if order == [] then []
    else
      var rest, last := order[..|order| - 1], order[|order| - 1];
      OfShard(updates, rest, key) + if updates[last].key == key then [last] else []
  }

  function AsMade(n: nat): (r: seq<nat>)
    ensures |r| == n && forall i :: 0 <= i < n ==> r[i] == i
  {
    seq(n, i requires 0 <= i < n => i)
  }

  /** Every update of the run is persisted once, and those of one shard in the order they were made. */
  ghost predicate Interleaves(updates: seq<Update>, order: seq<nat>) {
    Known(updates, order) && forall key :: OfShard(updates, order, key) == OfShard(updates, AsMade(|updates|), key)
  }

  /** No position above the shards was written last by an update made before another one that changes it. */
  ghost predicate AllCurrent(updates: seq<Update>, order: seq<nat>)
    requires Known(updates, order)
  {
    forall t, p :: IsUpper(t) ==> IsCurrent(updates, order, t, p)
  }

  predicate IsCurrent(updates: seq<Update>, order: seq<nat>, t: P.TreeRef, p: Position)
    requires Known(updates, order)
  {
    var w := LastWriter(updates, order, t, p);
    w.Some? ==> NoLaterChange(updates, w.value, t, p)
  }

  // ---- What is stored of one tree ----

  datatype TreeRecord = TreeRecord(meta: Option<TreeMetadata>, nodes: Option<Store>)

  function RecordOf(storage: Storage, t: P.TreeRef): TreeRecord {
    TreeRecord(if t in storage.meta.trees then Some(storage.meta.trees[t]) else None,
               if t in storage.nodes then Some(storage.nodes[t]) else None)
  }

  /** An update rewrites the trees of its own shard depending only on what is stored of them, and none of another
      shard's. */
  lemma PersistedRecord(a: Storage, b: Storage, e: Update, t: P.TreeRef)
    requires !IsUpper(t)
    ensures KeyOf(t) != e.key ==> RecordOf(PersistOne(a, e), t) == RecordOf(a, t)
    ensures RecordOf(a, t) == RecordOf(b, t) ==> RecordOf(PersistOne(a, e), t) == RecordOf(PersistOne(b, e), t)
  {
    hide Replay, NodesBelow, Height;
  }

  lemma PersistedThen(storage: Storage, updates: seq<Update>, order: seq<nat>, last: nat)
    requires Known(updates, order) && last < |updates|
    ensures PersistAll(storage, updates, order + [last])
      == PersistOne(PersistAll(storage, updates, order), updates[last])
  {
    hide PersistOne;
    assert (order + [last])[..|order|] == order;
  }

  /** What is stored of a shard and its segments depends only on the order of that shard's updates. */
  lemma {:induction false} ShardRecord(storage: Storage, updates: seq<Update>, order: seq<nat>, t: P.TreeRef)
    requires Known(updates, order) && !IsUpper(t)
    ensures Known(updates, OfShard(updates, order, KeyOf(t)))
    ensures RecordOf(PersistAll(storage, updates, order), t)
         == RecordOf(PersistAll(storage, updates, OfShard(updates, order, KeyOf(t))), t)
    decreases |order|
  {
    hide PersistOne, RecordOf, IsUpper;
    if order != [] {
      var rest, last := order[..|order| - 1], order[|order| - 1];
      ShardRecord(storage, updates, rest, t);
      var own := OfShard(updates, rest, KeyOf(t));
      PersistedRecord(PersistAll(storage, updates, rest), PersistAll(storage, updates, own), updates[last], t);
      PersistedThen(storage, updates, own, last);
      assert own + [] == own;
    }
  }

  // ---- Region and Global metadata ----

  /** What updates record of a Region tree or the Global tree. */
  function UpperMeta(f: Forest, t: P.TreeRef): Option<TreeMetadata>
    requires t.regionID in f.regionIDs || t == P.GLOBAL_TREE
  {
    if t == P.GLOBAL_TREE then None else Some(TreeMetadata(f.numShards, RegionIndex(f.regionIDs, t.regionID), true))
  }

  predicate SomeTouches(updates: seq<Update>, order: seq<nat>, t: P.TreeRef)
    requires Known(updates, order)
  {
    exists i :: 0 <= i < |order| && Touches(updates[order[i]], t)
  }

  lemma OneMoreTouches(updates: seq<Update>, order: seq<nat>, t: P.TreeRef)
    requires Known(updates, order) && order != []
    ensures var rest, last := order[..|order| - 1], order[|order| - 1];
      SomeTouches(updates, order, t) <==> SomeTouches(updates, rest, t) || Touches(updates[last], t)
  {
    hide Touches;
    var rest := order[..|order| - 1];
    if SomeTouches(updates, rest, t) {
      var i :| 0 <= i < |rest| && Touches(updates[rest[i]], t);
      assert order[i] == rest[i];
    }
    if SomeTouches(updates, order, t) {
      var i :| 0 <= i < |order| && Touches(updates[order[i]], t);
      if i < |rest| { assert rest[i] == order[i]; }
    }
  }

  lemma StepMeta(s: System, s': System, e: Update, storage: Storage, t: P.TreeRef)
    requires Inv(s) && AppendStep(s, s', e.key, e.segmentID, e.leaves, e.report) && IsUpper(t)
    ensures e.key.regionID in s.forest.regionIDs
    ensures PersistOne(storage, e).meta.globalLeafCount == |s.forest.regionIDs|
    ensures RecordOf(PersistOne(storage, e), t).meta == if Touches(e, t) && t != P.GLOBAL_TREE
      then UpperMeta(s.forest, t) else RecordOf(storage, t).meta
    ensures RecordOf(PersistOne(storage, e), t).nodes.Some? <==> RecordOf(storage, t).nodes.Some? || Touches(e, t)
  {
    hide WellFormed, Backed, Faithful, Complete, Replay, Root, NodesBelow, ShardReport, RegionIndex, PathUpdates,
      ForestRoot, GlobalLeaves, ShardLeaves, RegionLeaves, Height, ShardCommitment, RegionCommitment, ShardChanged;
    AppendReport(s.forest, s'.forest, e.key, SealedSegment(e.segmentID, |e.leaves|, Root(e.leaves)), e.report);
  }

  /** Whatever the order, what is recorded of the trees above the shards depends only on which of them an update
      touches. */
  lemma {:induction false} UpperRecord(run: seq<System>, updates: seq<Update>, order: seq<nat>, t: P.TreeRef)
    requires Made(run, updates) && Known(updates, order) && IsUpper(t)
    ensures var f, storage := run[0].forest, PersistAll(run[0].storage, updates, order);
      && storage.meta.globalLeafCount == (if order == [] then 0 else |f.regionIDs|)
      && (SomeTouches(updates, order, t) ==> t.regionID in f.regionIDs || t == P.GLOBAL_TREE)
      && RecordOf(storage, t).meta == (if SomeTouches(updates, order, t) then UpperMeta(f, t) else None)
      && (RecordOf(storage, t).nodes.Some? <==> SomeTouches(updates, order, t))
    decreases |order|
  {
    hide Inv, PersistOne, RecordOf, UpperMeta, Touches, SomeTouches, AppendStep, IsRun;
    if order == [] {
      NothingRecorded(run, updates, t);
    } else {
      var rest, last := order[..|order| - 1], order[|order| - 1];
      UpperRecord(run, updates, rest, t);
      OneMoreTouches(updates, order, t);
      RunsHold(run, last);
      SameSize(run, 0, last);
      StepMeta(run[last], run[last + 1], updates[last], PersistAll(run[0].storage, updates, rest), t);
      if Touches(updates[last], t) { UpperMetaIs(run[0].forest, run[last].forest, updates[last], t); }
    }
  }

  lemma UpperMetaIs(f: Forest, f': Forest, e: Update, t: P.TreeRef)
    requires f'.regionIDs == f.regionIDs && f'.numShards == f.numShards && e.key.regionID in f.regionIDs
      && Touches(e, t)
    ensures (t.regionID in f.regionIDs || t == P.GLOBAL_TREE) && UpperMeta(f, t) == UpperMeta(f', t)
    ensures t == P.GLOBAL_TREE ==> UpperMeta(f, t) == None
  {}

  lemma NothingRecorded(run: seq<System>, updates: seq<Update>, t: P.TreeRef)
    requires IsRun(run)
    ensures run[0].storage.meta.globalLeafCount == 0 && RecordOf(run[0].storage, t) == TreeRecord(None, None)
    ensures !SomeTouches(updates, [], t)
  {
    hide Next;
    var regionIDs: seq<Text>, numShards: nat :| StartsAs(run[0], regionIDs, numShards);
    assert |run[0].storage.meta.trees| == 0 && |run[0].storage.nodes| == 0;
  }

  // ---- Interleavings persist the same updates ----

  lemma {:induction false} ListedOnce(updates: seq<Update>, order: seq<nat>, i: nat)
    requires Known(updates, order) && i < |updates|
    ensures i in order <==> i in OfShard(updates, order, updates[i].key)
    decreases |order|
  {
    if order != [] {
      ListedOnce(updates, order[..|order| - 1], i);
      assert order == order[..|order| - 1] + [order[|order| - 1]];
    }
  }

  lemma AllListed(updates: seq<Update>, order: seq<nat>, i: nat)
    requires Interleaves(updates, order) && i < |updates|
    ensures i in order
  {
    hide OfShard;
    ListedOnce(updates, order, i);
    ListedOnce(updates, AsMade(|updates|), i);
    assert AsMade(|updates|)[i] == i;
  }

  lemma {:induction false} InOrderIsRun(run: seq<System>, updates: seq<Update>, k: nat)
    requires Made(run, updates) && k <= |updates|
    ensures PersistAll(run[0].storage, updates, AsMade(k)) == run[k].storage
  {
    hide PersistOne, PersistAll, IsRun, AppendStep;
    if k == 0 {
      PersistedNone(run[0].storage, updates);
    } else {
      InOrderIsRun(run, updates, k - 1);
      assert AsMade(k) == AsMade(k - 1) + [k - 1];
      PersistedThen(run[0].storage, updates, AsMade(k - 1), k - 1);
      StepPersists(run[k - 1], run[k - 1 + 1], updates[k - 1]);
    }
  }

  lemma PersistedNone(storage: Storage, updates: seq<Update>)
    ensures PersistAll(storage, updates, AsMade(0)) == storage
  {
    hide PersistOne;
  }

  lemma StepPersists(s: System, s': System, e: Update)
    requires AppendStep(s, s', e.key, e.segmentID, e.leaves, e.report)
    ensures s'.storage == PersistOne(s.storage, e)
  {
    hide Persist, Reports, Appended, NodesBelow, Root;
  }

  lemma SameTouches(updates: seq<Update>, order: seq<nat>, t: P.TreeRef)
    requires Interleaves(updates, order)
    ensures SomeTouches(updates, order, t) <==> SomeTouches(updates, AsMade(|updates|), t)
  {
    hide Touches, OfShard;
    var made := AsMade(|updates|);
    if SomeTouches(updates, order, t) {
      var i :| 0 <= i < |order| && Touches(updates[order[i]], t);
      assert made[order[i]] == order[i];
    }
    if SomeTouches(updates, made, t) {
      var i :| 0 <= i < |made| && Touches(updates[made[i]], t);
      AllListed(updates, order, i);
      var j :| 0 <= j < |order| && order[j] == i;
    }
  }

  /** Interleaving the shards' updates differently changes nothing that is stored of a shard or a segment, and no
      metadata. */
  lemma SameBesidesNodes(run: seq<System>, updates: seq<Update>, order: seq<nat>, t: P.TreeRef)
    requires Made(run, updates) && Interleaves(updates, order)
    ensures var a, b := PersistAll(run[0].storage, updates, order), run[|updates|].storage;
      && a.meta.globalLeafCount == b.meta.globalLeafCount && RecordOf(a, t).meta == RecordOf(b, t).meta
      && (RecordOf(a, t).nodes.Some? <==> RecordOf(b, t).nodes.Some?)
      && (!IsUpper(t) ==> RecordOf(a, t) == RecordOf(b, t))
  {
    hide RecordOf, UpperMeta, SomeTouches, OfShard, IsRun, AppendStep, IsUpper, PersistAll;
    var made := AsMade(|updates|);
    InOrderIsRun(run, updates, |updates|);
    SameCount(run, updates, order);
    if IsUpper(t) {
      UpperRecord(run, updates, order, t);
      UpperRecord(run, updates, made, t);
      SameTouches(updates, order, t);
    } else {
      ShardRecord(run[0].storage, updates, order, t);
      ShardRecord(run[0].storage, updates, made, t);
    }
  }

  lemma SomeUpdate(updates: seq<Update>, order: seq<nat>)
    requires Known(updates, order) && order != []
    ensures updates != []
  {
    assert order[0] < |updates|;
  }

  lemma SameCount(run: seq<System>, updates: seq<Update>, order: seq<nat>)
    requires Made(run, updates) && Interleaves(updates, order)
    ensures PersistAll(run[0].storage, updates, order).meta.globalLeafCount
         == PersistAll(run[0].storage, updates, AsMade(|updates|)).meta.globalLeafCount
  {
    hide RecordOf, UpperMeta, SomeTouches, OfShard, IsRun, AppendStep, PersistAll;
    UpperRecord(run, updates, order, P.GLOBAL_TREE);
    UpperRecord(run, updates, AsMade(|updates|), P.GLOBAL_TREE);
    if order != [] { SomeUpdate(updates, order); }
    if |updates| > 0 { AllListed(updates, order, 0); }
  }

  // ---- The nodes above the shards ----

  lemma SameWritten(run: seq<System>, updates: seq<Update>, order: seq<nat>, t: P.TreeRef, p: Position)
    requires Made(run, updates) && Interleaves(updates, order)
    ensures LastWriter(updates, order, t, p).Some? <==> LastWriter(updates, AsMade(|updates|), t, p).Some?
  {
    hide Writes, OfShard, Made, LastWriter;
    var made := AsMade(|updates|);
    WriterListed(updates, order, t, p);
    WriterListed(updates, made, t, p);
    var a, b := LastWriter(updates, order, t, p), LastWriter(updates, made, t, p);
    if a.Some? { assert made[a.value] == a.value; }
    if b.Some? {
      AllListed(updates, order, b.value);
      var j :| 0 <= j < |order| && order[j] == b.value;
    }
  }

  /** A position last written by an update after which no append changes it is stored as persisting in order stores
      it. */
  lemma SameStored(run: seq<System>, updates: seq<Update>, order: seq<nat>, t: P.TreeRef, p: Position)
    requires Made(run, updates) && Interleaves(updates, order) && IsUpper(t) && HasTree(run[0].forest, t)
    requires IsCurrent(updates, order, t, p)
    ensures var a, b := StoreOf(PersistAll(run[0].storage, updates, order), t), StoreOf(run[|updates|].storage, t);
      (p in a <==> p in b) && (p in a ==> a[p] == b[p])
  {
    hide Holds, IsUpper, HasTree, Writes, OfShard, PersistAll, LastWriter, Changes, LeavesOf, InTree, NodeAt,
      AppendStep, IsRun, StoreOf;
    var n := |updates|;
    StoredValue(run, updates, order, t, p);
    StoredValue(run, updates, AsMade(n), t, p);
    InOrderIsRun(run, updates, n);
    SameWritten(run, updates, order, t, p);
    var w := LastWriter(updates, order, t, p);
    if w.Some? {
      UpperThere(run, n, t);
      NodeKept(run, updates, w.value + 1, n, t, p);
      TrueAt(run[n].forest, run[n].contents, run[n].storage, t, p);
    }
  }

  /** A storage that holds the forest has the forest's own node wherever it has one. */
  lemma TrueAt(f: Forest, c: Contents, storage: Storage, t: P.TreeRef, p: Position)
    requires Holds(f, c, storage) && HasTree(f, t) && p in StoreOf(storage, t)
    ensures InTree(|LeavesOf(f, c, t)|, p) && StoreOf(storage, t)[p] == NodeAt(LeavesOf(f, c, t), p)
  {
    hide WellFormed, Backed, Complete, LeavesOf, HasTree, InTree, NodeAt, MetaTrue;
    assert NodesTrue(f, c, t, storage.nodes[t]);
  }

  lemma TouchedThere(run: seq<System>, updates: seq<Update>, i: nat, t: P.TreeRef)
    requires Made(run, updates) && i < |updates| && Touches(updates[i], t)
    ensures HasTree(run[0].forest, t)
  {
    hide Inv, IsRun, AppendStep;
    ChangedKey(run, updates, i);
    SameSize(run, 0, i);
  }

  lemma SameStore(run: seq<System>, updates: seq<Update>, order: seq<nat>, t: P.TreeRef)
    requires Made(run, updates) && Interleaves(updates, order) && AllCurrent(updates, order) && IsUpper(t)
    ensures StoreOf(PersistAll(run[0].storage, updates, order), t) == StoreOf(run[|updates|].storage, t)
  {
    hide OfShard, PersistAll, IsCurrent, AppendStep, IsRun, IsUpper, HasTree, RecordOf;
    var a, b := StoreOf(PersistAll(run[0].storage, updates, order), t), StoreOf(run[|updates|].storage, t);
    if SomeTouches(updates, order, t) {
      var i :| 0 <= i < |order| && Touches(updates[order[i]], t);
      TouchedThere(run, updates, order[i], t);
      forall p ensures (p in a <==> p in b) && (p in a ==> a[p] == b[p]) {
        SameStored(run, updates, order, t, p);
      }
    } else {
      UpperRecord(run, updates, order, t);
      SameBesidesNodes(run, updates, order, t);
      RecordStore(PersistAll(run[0].storage, updates, order), t);
      RecordStore(run[|updates|].storage, t);
    }
  }

  lemma RecordStore(storage: Storage, t: P.TreeRef)
    ensures var r := RecordOf(storage, t); StoreOf(storage, t) == if r.nodes.Some? then r.nodes.value else map[]
  {}

  lemma SameRecords(a: Storage, b: Storage)
    requires a.meta.globalLeafCount == b.meta.globalLeafCount && forall t :: RecordOf(a, t) == RecordOf(b, t)
    ensures a == b
  {
    forall t
      ensures t in a.meta.trees <==> t in b.meta.trees
      ensures t in a.meta.trees ==> a.meta.trees[t] == b.meta.trees[t]
      ensures t in a.nodes <==> t in b.nodes
      ensures t in a.nodes ==> a.nodes[t] == b.nodes[t]
    {
      assert RecordOf(a, t) == RecordOf(b, t);
    }
    assert a.meta.trees == b.meta.trees && a.nodes == b.nodes;
  }

  /** If every position was written last by an update after which nothing changes it, all is stored as if persisted in
      order. */
  lemma CurrentIsInOrder(run: seq<System>, updates: seq<Update>, order: seq<nat>)
    requires Made(run, updates) && Interleaves(updates, order) && AllCurrent(updates, order)
    ensures PersistAll(run[0].storage, updates, order) == run[|updates|].storage
  {
    hide IsRun, AppendStep, OfShard, AllCurrent, PersistAll, RecordOf, IsUpper;
    var a, b := PersistAll(run[0].storage, updates, order), run[|updates|].storage;
    SameBesidesNodes(run, updates, order, P.GLOBAL_TREE);
    forall t ensures RecordOf(a, t) == RecordOf(b, t) {
      SameBesidesNodes(run, updates, order, t);
      if IsUpper(t) {
        SameStore(run, updates, order, t);
        RecordStore(a, t);
        RecordStore(b, t);
      }
    }
    SameRecords(a, b);
  }

  // ---- The exact condition ----

  /** The hash collides between the last state of a run and another one. */
  ghost predicate Collides(run: seq<System>)
    requires run != []
  {
    var n := |run| - 1;
    exists i :: 0 <= i < n && Inv(run[i]) && Inv(run[n]) && RootsCollide(run[i], run[n])
  }

  lemma HeldIsCurrent(run: seq<System>, updates: seq<Update>, order: seq<nat>, t: P.TreeRef, p: Position)
    requires Made(run, updates) && Known(updates, order) && IsUpper(t)
    requires Holds(run[|updates|].forest, run[|updates|].contents, PersistAll(run[0].storage, updates, order))
    requires !IsCurrent(updates, order, t, p)
    ensures Collides(run)
  {
    hide Faithful, Complete, WellFormed, Backed, IsUpper, HasTree, Changes, PersistAll, LeavesOf, InTree, NodeAt,
      AppendStep, IsRun, StoreOf, RootsCollide, Touches, Writes, LastWriter, NoLaterChange;
    var n, w := |updates|, LastWriter(updates, order, t, p);
    WriterListed(updates, order, t, p);
    WriterTouches(updates, w.value, t, p);
    TouchedThere(run, updates, w.value, t);
    StoredValue(run, updates, order, t, p);
    CurrentIffUnchanged(run, updates, w.value, t, p);
    TrueAt(run[n].forest, run[n].contents, PersistAll(run[0].storage, updates, order), t, p);
    NotLast(updates, w.value, t, p);
  }

  lemma WriterTouches(updates: seq<Update>, i: nat, t: P.TreeRef, p: Position)
    requires i < |updates| && Writes(updates[i], t, p)
    ensures Touches(updates[i], t)
  {}

  lemma NotLast(updates: seq<Update>, i: nat, t: P.TreeRef, p: Position)
    requires !NoLaterChange(updates, i, t, p)
    ensures i + 1 < |updates|
  {
    hide Changes;
  }

  /** Persisting the updates of a run in any interleaving of its shards leaves a storage that holds the last forest
      exactly if no position of a Region tree or the Global tree was written last by an update made before one that
      changes it, or the hash collides. */
  lemma HoldsIffCurrent(run: seq<System>, updates: seq<Update>, order: seq<nat>)
    requires Made(run, updates) && Interleaves(updates, order)
    ensures var s := run[|updates|];
      (Holds(s.forest, s.contents, PersistAll(run[0].storage, updates, order)) <==> AllCurrent(updates, order))
      || Collides(run)
  {
    hide Holds, PersistAll, IsUpper, IsCurrent, OfShard, IsRun, AppendStep, Collides;
    var s := run[|updates|];
    if AllCurrent(updates, order) {
      CurrentIsInOrder(run, updates, order);
      RunsHold(run, |updates|);
    } else if Holds(s.forest, s.contents, PersistAll(run[0].storage, updates, order)) {
      var t, p :| IsUpper(t) && !IsCurrent(updates, order, t, p);
      HeldIsCurrent(run, updates, order, t, p);
    }
  }

  // ---- The last update of each tree ----

  /** Every update of a tree writes and changes its root. */
  lemma RootTouched(run: seq<System>, updates: seq<Update>, i: nat, t: P.TreeRef)
    requires Made(run, updates) && i < |updates| && IsUpper(t) && Touches(updates[i], t)
    ensures HasTree(run[0].forest, t) && UpperAt(run, 0, t)
    ensures var top := TopPosition(|LeavesAt(run, 0, t)|); Writes(updates[i], t, top) && Changes(updates[i], t, top)
  {
    hide Inv, IsUpper, HasTree, Emitted, LeavesOf, PathUpdates, AppendStep, IsRun, Ancestor, Height, Width, Sibling,
      AllNodes;
    TouchedThere(run, updates, i, t);
    SizesSame(run, updates, 0, i, t);
    SizesSame(run, updates, 0, i + 1, t);
    StepRewrites(run, updates, i, t);
    var leaves, e := LeavesAt(run, i + 1, t), updates[i];
    var leaf, top := ChangedLeaf(e, t), Height(|leaves|);
    PathUpdatesAre(leaves, leaf);
    AncestorInRange(|leaves|, leaf, top);
    TopWidth(|leaves|);
    assert EmittedOnPath(leaves, PathUpdates(leaves, leaf), leaf, top);
  }

  /** A position that an update changes is written by it. */
  lemma ChangedIsWritten(run: seq<System>, updates: seq<Update>, i: nat, t: P.TreeRef, p: Position)
    requires Made(run, updates) && i < |updates| && IsUpper(t) && Changes(updates[i], t, p)
    ensures HasTree(run[0].forest, t) && UpperAt(run, 0, t)
    ensures InTree(|LeavesAt(run, 0, t)|, p) ==> Writes(updates[i], t, p)
  {
    hide Inv, IsUpper, HasTree, Emitted, LeavesOf, PathUpdates, AppendStep, IsRun, Ancestor, Height, Width, Sibling,
      AllNodes;
    TouchedThere(run, updates, i, t);
    SizesSame(run, updates, 0, i, t);
    SizesSame(run, updates, 0, i + 1, t);
    StepRewrites(run, updates, i, t);
    var leaves, leaf := LeavesAt(run, i + 1, t), ChangedLeaf(updates[i], t);
    PathUpdatesAre(leaves, leaf);
    if InTree(|leaves|, p) { assert EmittedOnPath(leaves, PathUpdates(leaves, leaf), leaf, p.level); }
  }

  /** Persisting in the order of the appends leaves everything current. */
  lemma AsMadeIsCurrent(run: seq<System>, updates: seq<Update>)
    requires Made(run, updates)
    ensures Interleaves(updates, AsMade(|updates|)) && AllCurrent(updates, AsMade(|updates|))
  {
    hide Inv, IsUpper, HasTree, LeavesOf, AppendStep, IsRun, Writes, Changes, LastWriter, OfShard, InTree;
    var n := |updates|;
    forall t, p | IsUpper(t) ensures IsCurrent(updates, AsMade(n), t, p) {
      LastOfMade(updates, n, t, p);
      WriterListed(updates, AsMade(n), t, p);
      var w := LastWriter(updates, AsMade(n), t, p);
      if w.Some? {
        WriterTouches(updates, w.value, t, p);
        WrittenInTree(run, updates, w.value, t, p);
        forall k | w.value < k < n ensures !Changes(updates[k], t, p) {
          if Changes(updates[k], t, p) { ChangedIsWritten(run, updates, k, t, p); }
        }
      }
    }
  }

  lemma WrittenInTree(run: seq<System>, updates: seq<Update>, i: nat, t: P.TreeRef, p: Position)
    requires Made(run, updates) && i < |updates| && IsUpper(t) && Writes(updates[i], t, p)
    ensures UpperAt(run, 0, t) && InTree(|LeavesAt(run, 0, t)|, p)
  {
    hide Inv, IsUpper, HasTree, LeavesOf, PathUpdates, AppendStep, IsRun, InTree, NodeAt;
    TouchedThere(run, updates, i, t);
    SizesSame(run, updates, 0, i, t);
    SizesSame(run, updates, 0, i + 1, t);
    StepRewrites(run, updates, i, t);
    var leaves, leaf := LeavesAt(run, i + 1, t), ChangedLeaf(updates[i], t);
    PathUpdatesAre(leaves, leaf);
    var nodes := PathUpdates(leaves, leaf);
    var j :| 0 <= j < |nodes| && At(nodes, j) == p;
    assert IsNode(leaves, nodes[j]);
  }

  lemma {:induction false} LastOfMade(updates: seq<Update>, k: nat, t: P.TreeRef, p: Position)
    requires k <= |updates|
    ensures var w := LastWriter(updates, AsMade(k), t, p);
      forall j :: (if w.Some? then w.value else -1) < j < k ==> !Writes(updates[j], t, p)
    ensures LastWriter(updates, AsMade(k), t, p).Some? ==> LastWriter(updates, AsMade(k), t, p).value < k
  {
    hide Writes;
    if k > 0 {
      LastOfMade(updates, k - 1, t, p);
      assert AsMade(k)[..k - 1] == AsMade(k - 1);
    }
  }

  /** In an order that leaves everything current, the update of a tree persisted last is the one made last. */
  lemma CurrentEndsWithLast(run: seq<System>, updates: seq<Update>, order: seq<nat>, t: P.TreeRef, last: nat)
    requires Made(run, updates) && Known(updates, order) && AllCurrent(updates, order) && IsUpper(t)
    requires last < |order| && Touches(updates[order[last]], t)
    requires forall j :: last < j < |order| ==> !Touches(updates[order[j]], t)
    ensures forall k :: order[last] < k < |updates| ==> !Touches(updates[k], t)
  {
    hide Inv, IsUpper, HasTree, LeavesOf, AppendStep, IsRun, Writes, Changes, LastWriter, Touches, TopPosition;
    RootTouched(run, updates, order[last], t);
    var top := TopPosition(|LeavesAt(run, 0, t)|);
    LastIs(updates, order, t, top, last);
    assert IsCurrent(updates, order, t, top);
    forall k | order[last] < k < |updates| ensures !Touches(updates[k], t) {
      if Touches(updates[k], t) { RootTouched(run, updates, k, t); }
    }
  }

  lemma {:induction false} LastIs(updates: seq<Update>, order: seq<nat>, t: P.TreeRef, p: Position, last: nat)
    requires Known(updates, order) && last < |order| && Writes(updates[order[last]], t, p)
    requires forall j :: last < j < |order| ==> !Touches(updates[order[j]], t)
    ensures LastWriter(updates, order, t, p) == Some(order[last])
    decreases |order|
  {
    hide Emitted;
    if last < |order| - 1 {
      var rest := order[..|order| - 1];
      assert forall j :: 0 <= j < |rest| ==> rest[j] == order[j];
      LastIs(updates, rest, t, p, last);
    }
  }

  /** The last Global root is not enough: after two shards of one region and a third of another region, the order that
      swaps the first two stores the last Global root but a stale Region tree. */
  lemma LastIsNotEnough(run: seq<System>, updates: seq<Update>)
    requires Made(run, updates) && |updates| == 3
    requires updates[0].key.regionID == updates[1].key.regionID != updates[2].key.regionID
    requires updates[0].key.shardID != updates[1].key.shardID
    ensures Interleaves(updates, [1, 0, 2]) && !AllCurrent(updates, [1, 0, 2])
    ensures Holds(run[3].forest, run[3].contents, PersistAll(run[0].storage, updates, [1, 0, 2])) ==> Collides(run)
  {
    hide Made, PersistAll, Holds, Collides, AllCurrent, OfShard;
    var order: seq<nat>, t := [1, 0, 2], P.RegionTree(updates[0].key.regionID);
    assert AsMade(3) == [0, 1, 2];
    forall key ensures OfShard(updates, order, key) == OfShard(updates, AsMade(3), key) { SwappedFirst(updates, key); }
    if AllCurrent(updates, order) { CurrentEndsWithLast(run, updates, order, t, 1); }
    HoldsIffCurrent(run, updates, order);
  }

  lemma SwappedFirst(updates: seq<Update>, key: ShardKey)
    requires |updates| == 3 && updates[0].key != updates[1].key
    ensures OfShard(updates, [1, 0, 2], key) == OfShard(updates, [0, 1, 2], key)
  {
    hide OfShard;
    assert [1, 0, 2] == [1, 0] + [2] && [0, 1, 2] == [0, 1] + [2];
    OneMoreOf(updates, [1, 0], 2, key);
    OneMoreOf(updates, [0, 1], 2, key);
    Swapped(updates, key);
  }

  lemma Swapped(updates: seq<Update>, key: ShardKey)
    requires |updates| > 1 && updates[0].key != updates[1].key
    ensures OfShard(updates, [1, 0], key) == OfShard(updates, [0, 1], key)
  {
    hide OfShard;
    assert [1, 0] == [1] + [0] && [0, 1] == [0] + [1] && [1] == [] + [1] && [0] == [] + [0];
    OneMoreOf(updates, [1], 0, key);
    OneMoreOf(updates, [], 1, key);
    OneMoreOf(updates, [0], 1, key);
    OneMoreOf(updates, [], 0, key);
  }

  lemma OneMoreOf(updates: seq<Update>, order: seq<nat>, last: nat, key: ShardKey)
    requires Known(updates, order) && last < |updates|
    ensures OfShard(updates, order + [last], key) == OfShard(updates, order, key) + if updates[last].key == key
      then [last] else []
  {
    assert (order + [last])[..|order|] == order;
  }
}
