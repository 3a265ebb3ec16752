/** Updates are persisted row by row (internal/storage/cassandra/hmf_update_writer.go:41-73), each node in the bucket in
    which the planner's requests look for it. */
module RowPersistence {
  import opened Hashing
  import opened Merkle
  import opened NodeStore
  import opened ProofBuilding
  import opened NodeRows
  import opened Persistence
  import opened UpdateOrder

  /** Writes the rows of one update: its segment's, its shard's, its region's and the Global tree's. */
  function PersistRows(rows: Rows, e: Update): Rows {
    var key, u := e.key, e.report;
    var segment := WriteRows(rows, SegmentRef(key, e.segmentID), NodesBelow(e.leaves, Height(|e.leaves|) + 1));
    var shard := WriteRows(segment, ShardRef(key), u.shard.nodes);
    var region := WriteRows(shard, P.RegionTree(key.regionID), u.region.nodes);
    WriteRows(region, P.GLOBAL_TREE, u.global.nodes)
  }

  lemma RowsPersisted(rows: Rows, storage: Storage, e: Update)
    requires RowsFor(rows, storage.nodes)
    ensures RowsFor(PersistRows(rows, e), PersistOne(storage, e).nodes)
  {
    hide RowsFor, WriteRows, Replay, NodesBelow, Height;
    var key, u := e.key, e.report;
    var segment, nodes := SegmentRef(key, e.segmentID), NodesBelow(e.leaves, Height(|e.leaves|) + 1);
    var r1, s1 := WriteRows(rows, segment, nodes), storage.nodes[segment := Replay(StoreOf(storage, segment), nodes)];
    WrittenRows(rows, storage.nodes, segment, nodes);
    var shard := ShardRef(key);
    var r2, s2 := WriteRows(r1, shard, u.shard.nodes), s1[shard := Replay(StoreOf(storage, shard), u.shard.nodes)];
    WrittenRows(r1, s1, shard, u.shard.nodes);
    var region := P.RegionTree(key.regionID);
    var r3, s3 := WriteRows(r2, region, u.region.nodes), s2[region := Replay(StoreOf(storage, region), u.region.nodes)];
    WrittenRows(r2, s2, region, u.region.nodes);
    WrittenRows(r3, s3, P.GLOBAL_TREE, u.global.nodes);
  }

  function AllRows(updates: seq<Update>, order: seq<nat>): Rows
    requires forall i :: 0 <= i < |order| ==> order[i] < |updates|
  {
    if order == [] then map[] else PersistRows(AllRows(updates, order[..|order| - 1]), updates[order[|order| - 1]])
  }

  /** In whatever order the updates of a run are persisted, the rows are those of what is stored. */
  lemma {:induction false} RowsOfRun(run: seq<System>, updates: seq<Update>, order: seq<nat>)
    requires Made(run, updates) && forall i :: 0 <= i < |order| ==> order[i] < |updates|
    ensures RowsFor(AllRows(updates, order), PersistAll(run[0].storage, updates, order).nodes)
    decreases |order|
  {
    hide PersistOne, PersistRows, RowsFor, AppendStep;
    if order == [] {
      NoRows(run);
    } else {
      var rest := order[..|order| - 1];
      RowsOfRun(run, updates, rest);
      RowsPersisted(AllRows(updates, rest), PersistAll(run[0].storage, updates, rest), updates[order[|order| - 1]]);
    }
  }

  lemma NoRows(run: seq<System>)
    requires IsRun(run)
    ensures RowsFor(map[], run[0].storage.nodes)
  {
    hide Next;
    var regionIDs: seq<Text>, numShards: nat :| StartsAs(run[0], regionIDs, numShards);
    assert |run[0].storage.nodes| == 0;
  }
}
