/** Segment workers and the manager they share (internal/hm/segment_worker.go, internal/hm/manager.go). One worker runs
    for a shard; the methods below are the events of a worker's loop, for any shard and in any order. */
module WorkerManager {
  import opened Hashing
  import opened Merkle
  import opened NodeStore
  import opened SegmentTrees
  import opened Forests
  import opened ForestTrees
  import opened HierarchicalForest
  import opened SegmentWorkers
  import opened Persistence
  import opened ProofBuilding
  import opened Planner

  datatype Log = Log(key: LocatorKey, digest: Digest)

  /** The active Segment trees, one a shard and each with its shard's identity, hold the active segments. */
  ghost predicate TreesHold(trees: map<ShardKey, SegmentTree>, repr: set<SegmentTree>, active: map<ShardKey, Active>,
                            maxLeaves: int)
    reads repr
  {
    && (forall key :: key in trees <==> key in active)
    && forall key :: key in trees ==> trees[key] in repr && TreeHolds(trees[key], key, active[key], maxLeaves)
  }

  ghost predicate TreeHolds(tree: SegmentTree, key: ShardKey, a: Active, maxLeaves: int)
    reads tree
  {
    && tree.Valid() && !tree.isSealed && tree.regionID == key.regionID && tree.shardID == key.shardID
    && tree.segmentID == a.segmentID && tree.leaves == a.leaves && tree.maxLeaves == maxLeaves
  }

  class Manager {
    const hmf: HMF
    const maxSegmentLeaves: int
    var activeSegments: map<ShardKey, SegmentTree>
    var nextSegmentIDs: map<ShardKey, int>
    /** The shards whose worker holds on to its active segment. */
    var attached: set<ShardKey>
    var locatorConfigured: bool

    ghost var progress: Progress
    ghost var repr: set<SegmentTree>

    ghost predicate Tracks()
      reads this, hmf
    {
      progress.run != [] && Consistent(progress) && hmf.forest == Now(progress).forest
      && nextSegmentIDs == progress.nextIDs && maxSegmentLeaves > 0
      && forall key :: key in attached ==> key in activeSegments
    }

    ghost predicate Valid()
      reads this, hmf, hmf.globalTree, hmf.regionRepr, hmf.shardRepr, repr
    {
      hmf.Valid() && Tracks() && TreesHold(activeSegments, repr, progress.active, maxSegmentLeaves)
    }

    constructor (hmf: HMF, maxSegmentLeaves: int, ghost start: System)
      requires hmf.Valid() && Init(start) && start.forest == hmf.forest && maxSegmentLeaves > 0
      ensures Valid() && this.hmf == hmf && progress.run == [start] && progress.submitted == []
      ensures repr == {}
    {
      hide Init, HMF.Valid, Consistent, SegmentTree.Valid, Now, HasSegment, Begun;
      this.hmf, this.maxSegmentLeaves := hmf, maxSegmentLeaves;
      activeSegments, nextSegmentIDs, attached, locatorConfigured := map[], map[], {}, false;
      progress, repr := Begun(start), {};
      new;
      NothingYet(start);
    }

    /** NewHMF, then NewManager: a forest of empty shards with nothing persisted. */
    static method New(regionIDs: seq<Text>, numShards: int, maxSegmentLeaves: int) returns (r: Result<Manager>)
      ensures r.Ok? <==> regionIDs != [] && maxSegmentLeaves > 0 && numShards > 0 && ValidRegions(regionIDs)
      ensures r.Ok? ==>
        fresh(r.value) && r.value.Valid() && |r.value.progress.run| == 1 && r.value.progress.submitted == []
    {
      hide HMF.Valid, Consistent, StartsAs, EmptyForest, Unused, WellFormed;
      var forest := HMF.New(regionIDs, numShards, maxSegmentLeaves);
      if forest.Err? { return Err; }
      ghost var start := System(forest.value.forest, map[], Storage(HierarchyMetadata(map[], 0), map[]));
      assert WellFormed(forest.value.forest) by { forest.value.Formed(); }
      StartIs(start, regionIDs, numShards);
      var manager := new Manager(forest.value, maxSegmentLeaves, start);
      return Ok(manager);
    }

    /** An identifier is given out once, whatever becomes of it. */
    method NextSegmentID(key: ShardKey) returns (segmentID: int)
      requires Valid()
      modifies this`nextSegmentIDs, this`progress
      ensures Valid() && Later(old(progress), progress) && progress.submitted == old(progress.submitted)
      ensures segmentID == NextID(old(progress).nextIDs, key) && progress == Skipped(old(progress), key)
      ensures Now(progress) == Now(old(progress)) && Given(progress, key, segmentID)
    {
      hide HMF.Valid, Consistent, Later, SegmentTree.Valid, HasSegment, Now, TreeHolds, Given;
      segmentID := NextID(nextSegmentIDs, key);
      nextSegmentIDs := nextSegmentIDs[key := segmentID + 1];
      SkipKeeps(progress, key);
      progress := Skipped(progress, key);
    }

    method OpenSegment(key: ShardKey, segmentID: int) returns (ok: bool)
      requires Valid() && Given(progress, key, segmentID)
      modifies this`activeSegments, this`attached, this`progress, this`repr
      ensures Valid() && Later(old(progress), progress) && progress.submitted == old(progress.submitted)
      ensures fresh(repr - old(repr))
      ensures Now(progress) == Now(old(progress))
      ensures ok <==> key !in old(activeSegments) && key in hmf.forest.segments
      ensures ok ==> key in activeSegments && key in attached
      ensures progress == if ok then Opened(old(progress), key, segmentID) else old(progress)
      ensures !ok ==> activeSegments == old(activeSegments) && attached == old(attached)
    {
      hide HMF.Valid, Consistent, Later, SegmentTree.Valid, HasSegment, Now, Given;
      Shards();
      LaterSame(progress);
      if key !in hmf.shardTrees { return false; }
      if key in activeSegments { return false; }
      Activate(key, segmentID);
      return true;
    }

    method NewTree(key: ShardKey, segmentID: int) returns (tree: SegmentTree)
      ensures fresh(tree) && TreeHolds(tree, key, Active(segmentID, []), maxSegmentLeaves)
    {
      tree := new SegmentTree(key.regionID, key.shardID, segmentID, maxSegmentLeaves);
    }

    method Activate(key: ShardKey, segmentID: int)
      requires Valid() && Given(progress, key, segmentID) && key !in activeSegments && key in hmf.forest.segments
      modifies this`activeSegments, this`attached, this`progress, this`repr
      ensures Valid() && Later(old(progress), progress) && progress.submitted == old(progress.submitted)
      ensures fresh(repr - old(repr))
      ensures Now(progress) == Now(old(progress))
      ensures key in activeSegments && key in attached && progress == Opened(old(progress), key, segmentID)
    {
      hide HMF.Valid, Consistent, Later, TreeHolds, HasSegment, Now, Given;
      OpenKeeps(progress, key, segmentID);
      var tree := NewTree(key, segmentID);
      activeSegments := activeSegments[key := tree];
      attached := attached + {key};
      progress := Opened(progress, key, segmentID);
      repr := repr + {tree};
    }

    /** Seals the active Segment tree of a shard. */
    method SealTree(key: ShardKey) returns (nodes: Result<seq<MerkleNode>>)
      requires Valid() && key in activeSegments
      modifies activeSegments[key]
      ensures hmf.Valid() && Tracks() && (nodes.Ok? <==> progress.active[key].leaves != [])
      ensures nodes.Err? ==> Valid()
      ensures nodes.Ok? ==> TreesHold(activeSegments - {key}, repr, progress.active - {key}, maxSegmentLeaves)
      ensures var tree, a := activeSegments[key], progress.active[key];
        tree.segmentID == a.segmentID && tree.leafCount == |a.leaves|
        && (nodes.Ok? ==> tree.root == Root(a.leaves) && nodes.value == NodesBelow(a.leaves, Height(|a.leaves|) + 1))
    {
      hide HMF.Valid, Consistent, Now, RowNodes, Root, NodesBelow, Height;
      nodes := activeSegments[key].Seal();
    }

    /** Seals the active segment of a shard and appends it to the forest; the update goes to the persistence writer. */
    method CloseSegment(key: ShardKey) returns (r: Result<HMFUpdate>)
      requires Valid()
      modifies this`activeSegments, this`attached, this`progress, hmf, hmf.globalTree, hmf.regionRepr, hmf.shardRepr,
        repr
      ensures Valid() && Later(old(progress), progress) && progress.submitted == old(progress.submitted)
      ensures r.Ok? <==> key in old(activeSegments) && old(progress).active[key].leaves != []
      ensures r.Err? ==> progress == old(progress) && activeSegments == old(activeSegments) && attached == old(attached)
      ensures r.Ok? ==> key !in activeSegments && key in hmf.forest.segments
      ensures r.Ok? ==> progress == Closed(old(progress), key, Now(progress))
      ensures r.Ok? ==>
        var a := old(progress).active[key];
        AppendStep(Now(old(progress)), Now(progress), key, a.segmentID, a.leaves, r.value)
    {
      hide HMF.Valid, Consistent, Later, SegmentTree.Valid, HasSegment, Now, AppendStep, TreesHold, Root, NodesBelow,
        Height;
      LaterSame(progress);
      ActiveSame();
      if key !in activeSegments { return Err; }
      var nodes := SealTree(key);
      if nodes.Err? { return Err; }
      var update := AppendTree(key, activeSegments[key], nodes.value);
      return Ok(update);
    }

    /** Appends a sealed segment to the forest; it is no longer active. */
    method AppendTree(key: ShardKey, tree: SegmentTree, ghost nodes: seq<MerkleNode>) returns (update: HMFUpdate)
      requires hmf.Valid() && Tracks() && key in progress.active && progress.active[key].leaves != []
      requires TreesHold(activeSegments - {key}, repr, progress.active - {key}, maxSegmentLeaves)
      requires var a := progress.active[key];
        tree.segmentID == a.segmentID && tree.leafCount == |a.leaves| && tree.root == Root(a.leaves)
        && nodes == NodesBelow(a.leaves, Height(|a.leaves|) + 1)
      modifies this`activeSegments, this`attached, this`progress, hmf, hmf.globalTree, hmf.regionRepr, hmf.shardRepr
      ensures Valid() && Later(old(progress), progress) && progress.submitted == old(progress.submitted)
      ensures repr == old(repr)
      ensures hmf.globalTree == old(hmf.globalTree) && hmf.regionRepr == old(hmf.regionRepr)
      ensures hmf.shardRepr == old(hmf.shardRepr)
      ensures activeSegments == old(activeSegments) - {key} && key in hmf.forest.segments
      ensures progress == Closed(old(progress), key, Now(progress))
      ensures var a := old(progress).active[key];
        AppendStep(Now(old(progress)), Now(progress), key, a.segmentID, a.leaves, update)
    {
      hide HMF.Valid, Consistent, Later, SegmentTree.Valid, HasSegment, Now, AppendStep, TreesHold, Root, NodesBelow,
        Height, Appended, Reports, Persist;
      ghost var before, a := Now(progress), progress.active[key];
      CanAppend(progress, key);
      var result := hmf.AppendSealedSegment(key.regionID, key.shardID, tree.segmentID, tree.leafCount, tree.root);
      update := result.value;  // the shard exists, and the segment has an identifier and leaves
      StillThere(before.forest, key, SealedSegment(a.segmentID, |a.leaves|, Root(a.leaves)));
      ghost var after := System(hmf.forest, before.contents[SegmentRef(key, a.segmentID) := a.leaves],
                                Persist(before.storage, key, a.segmentID, nodes, |a.leaves|, update));
      IsAppend(before, after, key, a.segmentID, a.leaves, update);
      CloseKeeps(progress, key, after, update);
      progress := Closed(progress, key, after);
      activeSegments := activeSegments - {key};
      attached := attached - {key};
    }

    // ---- The events of a worker's loop ----

    /** Appends a log to the active segment, which has room, and submits its address to the locator if there is one,
        which may refuse it or fail. */
    method AppendAndPropagate(key: ShardKey, log: Log, accepted: bool) returns (ok: bool)
      requires Valid() && key in activeSegments && key in progress.active
      requires |progress.active[key].leaves| < maxSegmentLeaves
      modifies activeSegments[key], this`progress
      ensures Valid() && Later(old(progress), progress)
      ensures progress == Filed(old(progress), key, log, locatorConfigured)
      ensures ok <==> locatorConfigured && accepted
    {
      hide HMF.Valid, Consistent, Later, SegmentTree.Valid, HasSegment, Now;
      ghost var before := progress;
      LaterSame(before);
      ActiveSame();
      ActiveLeaves(key);
      var appended := AppendLeaf(key, log.digest);
      if !appended { return false; }  // there was room
      if !locatorConfigured { return false; }
      PropagateKeeps(before, key, log.digest, log.key);
      progress := Propagated(progress, key, log.key, log.digest);
      return accepted;
    }

    method AppendLeaf(key: ShardKey, digest: Digest) returns (ok: bool)
      requires Valid() && key in activeSegments
      modifies activeSegments[key], this`progress
      ensures Valid() && key in old(progress).active && Later(old(progress), progress)
      ensures Now(progress) == Now(old(progress))
      ensures ok <==> |old(progress).active[key].leaves| < maxSegmentLeaves
      ensures progress == if ok then Grown(old(progress), key, digest) else old(progress)
    {
      hide HMF.Valid, Consistent, Later, HasSegment, Now, RowNodes;
      ActiveSame();
      LaterSame(progress);
      GrowKeeps(progress, key, digest);
      ok := activeSegments[key].Append(digest);
      if ok { progress := Grown(progress, key, digest); }
    }

    /** The worker of the shard has a segment, or can open one. */
    ghost predicate CanServe(key: ShardKey)
      reads this, hmf
    {
      key in attached || (key !in activeSegments && key in hmf.forest.segments)
    }

    /** Handles a log: the segment in hand takes it if it has room; a full one is sealed first, and a worker without a
        segment opens one. `accepted` is the locator's answer. The request is refused exactly if the log has no time, no
        segment can be opened, there is no locator, or it does not accept the mapping. */
    method HandleRequest(key: ShardKey, log: Log, accepted: bool) returns (ok: bool)
      requires Valid()
      modifies this`activeSegments, this`nextSegmentIDs, this`attached, this`progress, this`repr, repr,
        hmf, hmf.globalTree, hmf.regionRepr, hmf.shardRepr
      ensures Valid() && Later(old(progress), progress)
      ensures ok <==> log.key.eventTime != ZERO_TIME && old(CanServe(key)) && locatorConfigured && accepted
      ensures log.key.eventTime == ZERO_TIME ==> progress == old(progress)
      ensures log.key.eventTime != ZERO_TIME && !old(CanServe(key)) ==> progress == Skipped(old(progress), key)
      ensures log.key.eventTime != ZERO_TIME && old(CanServe(key)) ==>
        Taken(old(progress), progress, key, log, key in old(attached), maxSegmentLeaves, locatorConfigured)
    {
      hide HMF.Valid, Consistent, Later, TreesHold, HasSegment, Now, AppendStep, Renewed, Taken;
      ghost var before, inHand := progress, key in attached;
      LaterSame(before);
      if log.key.eventTime == ZERO_TIME { return false; }
      ActiveSame();
      var open := EnsureOpen(key);
      ghost var between := progress;
      if !open { return false; }
      ActiveSame();
      ok := AppendAndPropagate(key, log, accepted);
      LaterThrough(before, between, progress);
      IsTaken(before, between, key, log, inHand, maxSegmentLeaves, locatorConfigured);
    }

    /** The active segment of the shard, opened or renewed if need be, has room. */
    method EnsureOpen(key: ShardKey) returns (ok: bool)
      requires Valid()
      modifies this`activeSegments, this`nextSegmentIDs, this`attached, this`progress, this`repr, repr,
        hmf, hmf.globalTree, hmf.regionRepr, hmf.shardRepr
      ensures Valid() && Later(old(progress), progress)
      ensures fresh(repr - old(repr))
      ensures ok <==> old(CanServe(key))
      ensures !ok ==> progress == Skipped(old(progress), key)
      ensures ok ==> key in activeSegments && key in progress.active && |progress.active[key].leaves| < maxSegmentLeaves
      ensures ok ==> Readied(old(progress), progress, key, key in old(attached), maxSegmentLeaves)
    {
      hide HMF.Valid, Consistent, Later, TreesHold, HasSegment, Now, AppendStep, Renewed;
      LaterSame(progress);
      ActiveSame();
      Limited();
      if key !in attached {
        ok := OpenNext(key);
        return;
      }
      ActiveLeaves(key);
      if activeSegments[key].leafCount >= activeSegments[key].maxLeaves {
        ghost var before := progress;
        ok := Rotate(key);
        RenewedIs(before, progress, key);
        return;
      }
      return true;
    }

    /** Opens a segment with the next identifier; the identifier is used up even if none can be opened. */
    method OpenNext(key: ShardKey) returns (ok: bool)
      requires Valid()
      modifies this`activeSegments, this`nextSegmentIDs, this`attached, this`progress, this`repr
      ensures Valid() && Later(old(progress), progress)
      ensures fresh(repr - old(repr)) && Now(progress) == Now(old(progress))
      ensures ok <==> key !in old(activeSegments) && key in hmf.forest.segments
      ensures ok ==> key in activeSegments && key in attached
      ensures var skipped := Skipped(old(progress), key);
        progress == if ok then Opened(skipped, key, NextID(old(progress).nextIDs, key)) else skipped
    {
      hide HMF.Valid, Consistent, Later, TreesHold, HasSegment, Now, Given;
      ghost var before := progress;
      var segmentID := NextSegmentID(key);
      ghost var between := progress;
      ok := OpenSegment(key, segmentID);
      LaterThrough(before, between, progress);
    }

    /** Closes the active segment and opens the next. */
    method Rotate(key: ShardKey) returns (ok: bool)
      requires Valid()
      modifies this`activeSegments, this`nextSegmentIDs, this`attached, this`progress, this`repr, repr,
        hmf, hmf.globalTree, hmf.regionRepr, hmf.shardRepr
      ensures Valid() && Later(old(progress), progress) && progress.submitted == old(progress.submitted)
      ensures fresh(repr - old(repr))
      ensures ok <==> key in old(activeSegments) && old(progress).active[key].leaves != []
      ensures if ok then Renewed(old(progress), progress, key) else progress == old(progress)
      ensures ok ==> key in activeSegments && key in attached
    {
      hide HMF.Valid, Consistent, Later, TreesHold, HasSegment, Now, AppendStep, Sealed;
      ActiveSame();
      ghost var before := progress;
      var closed := CloseSegment(key);
      if closed.Err? { return false; }
      ghost var between := progress;
      SealedBy(before, between, key, closed.value);
      ok := OpenNext(key);
      LaterThrough(before, between, progress);
      StillSealed(before, between, progress, key);
      ActiveSame();
    }

    lemma Limited()
      requires Valid()
      ensures maxSegmentLeaves > 0
    {
      hide HMF.Valid, Consistent, TreesHold;
    }

    /** The segment's time is up; an empty one stays open. */
    method HandleTimer(key: ShardKey)
      requires Valid() && key in attached
      modifies this`activeSegments, this`nextSegmentIDs, this`attached, this`progress, this`repr, repr,
        hmf, hmf.globalTree, hmf.regionRepr, hmf.shardRepr
      ensures Valid() && Later(old(progress), progress) && progress.submitted == old(progress.submitted)
      ensures key in old(progress).active
      ensures if old(progress).active[key].leaves == [] then progress == old(progress)
        else Renewed(old(progress), progress, key)
    {
      hide HMF.Valid, Consistent, Later, TreesHold, HasSegment, Now, Renewed;
      ActiveSame();
      var _ := Rotate(key);
    }

    /** The worker stops; an empty active segment stays behind. */
    method HandleStop(key: ShardKey)
      requires Valid()
      modifies this`activeSegments, this`attached, this`progress, hmf, hmf.globalTree, hmf.regionRepr, hmf.shardRepr,
        repr
      ensures Valid() && Later(old(progress), progress) && progress.submitted == old(progress.submitted)
        && key !in attached
      ensures key in old(attached) ==> key in old(progress).active
      ensures if key in old(attached) && old(progress).active[key].leaves != []
              then Sealed(old(progress), progress, key) && key !in progress.active else progress == old(progress)
    {
      hide HMF.Valid, Consistent, Later, TreesHold, HasSegment, Now, AppendStep, Sealed;
      LaterSame(progress);
      ActiveSame();
      if key in attached {
        ActiveLeaves(key);
        if activeSegments[key].leafCount > 0 {
          ghost var before := progress;
          var closed := CloseSegment(key);
          SealedBy(before, progress, key, closed.value);
        }
      }
      attached := attached - {key};
    }

    lemma ActiveLeaves(key: ShardKey)
      requires Valid() && key in activeSegments
      ensures key in progress.active && activeSegments[key].leafCount == |progress.active[key].leaves|
      ensures activeSegments[key].maxLeaves == maxSegmentLeaves
    {
      hide HMF.Valid, Consistent, RowNodes;
    }

    lemma ActiveSame()
      requires Valid()
      ensures forall key :: key in activeSegments <==> key in progress.active
      ensures forall key :: key in activeSegments ==> activeSegments[key] in repr
    {
      hide HMF.Valid, Consistent, TreeHolds;
    }

    lemma Shards()
      requires hmf.Valid()
      ensures forall key :: key in hmf.shardTrees <==> key in hmf.forest.segments
    {
      hide HMF.Separate, ShardsHold, RegionsHold, GlobalHolds, WellFormed, MadeOf;
      MadeSame(hmf.forest, hmf.forest, hmf.regionTrees.Keys, hmf.shardTrees.Keys, hmf.regionIndexes, hmf.shardIndexes);
    }
  }

  ghost function Begun(start: System): Progress {
    Progress([start], map[], map[], [])
  }

  lemma NothingYet(start: System)
    requires Init(start)
    ensures var p := Begun(start);
      Consistent(p) && Now(p) == start && p.run == [start] && p.submitted == [] && p.nextIDs == map[]
      && forall key :: key !in p.active
  {
    var regionIDs: seq<Text>, numShards: nat :| StartsAs(start, regionIDs, numShards);
    assert |start.contents| == 0;
  }

  lemma LaterSame(p: Progress)
    ensures Later(p, p)
  {}

  lemma CanAppend(p: Progress, key: ShardKey)
    requires Consistent(p) && key in p.active
    ensures key in Now(p).forest.segments && p.active[key].segmentID >= 0
    ensures FreshSegment(Now(p).forest, key, p.active[key].segmentID)
  {
    hide IsRun, SealedOK, SubmittedOK, HasSegment;
  }

  lemma StillThere(f: Forest, key: ShardKey, s: SealedSegment)
    requires key in f.segments
    ensures key in Appended(f, key, s).segments
  {}

  lemma IsAppend(s: System, s': System, key: ShardKey, segmentID: int, leaves: seq<Digest>, u: HMFUpdate)
    requires FreshSegment(s.forest, key, segmentID) && segmentID >= 0 && leaves != []
    requires s'.forest == Appended(s.forest, key, SealedSegment(segmentID, |leaves|, Root(leaves)))
    requires Reports(s'.forest, key, u)
    requires s'.contents == s.contents[SegmentRef(key, segmentID) := leaves]
    requires s'.storage == Persist(s.storage, key, segmentID, NodesBelow(leaves, Height(|leaves|) + 1), |leaves|, u)
    ensures AppendStep(s, s', key, segmentID, leaves, u)
  {
    hide Root, NodesBelow, Height, Appended, Reports, Persist, HasSegment;
  }

  /** The log is the next leaf of the active segment, and its address is submitted if there is a locator. */
  function Filed(p: Progress, key: ShardKey, log: Log, locatorConfigured: bool): Progress
    requires key in p.active
  {
    var grown := Grown(p, key, log.digest);
    if locatorConfigured then Propagated(grown, key, log.key, log.digest) else grown
  }

  /** The active segment before a log is appended: the one in hand if it has room, a new one instead of a full one, or a
      new one. */
  ghost predicate Readied(p: Progress, ready: Progress, key: ShardKey, inHand: bool, maxLeaves: int) {
    if !inHand then ready == Opened(Skipped(p, key), key, NextID(p.nextIDs, key))
    else key in p.active && if |p.active[key].leaves| < maxLeaves then ready == p else Renewed(p, ready, key)
  }

  /** What a request does with a log, by the state of its shard before: a segment in hand with room gets it as its next
      leaf; a full one is sealed, and the log is the first leaf of the next segment; without a segment in hand it is the
      first leaf of a new one. In each case the leaf's address is submitted if there is a locator. */
  ghost predicate Taken(p: Progress, p': Progress, key: ShardKey, log: Log, inHand: bool, maxLeaves: int,
                        locatorConfigured: bool) {
    && p.run != [] && p'.run != [] && (inHand ==> key in p.active)
    && var room := inHand && |p.active[key].leaves| < maxLeaves;
       var segmentID := if room then p.active[key].segmentID else NextID(p.nextIDs, key);
       var leaves := if room then p.active[key].leaves else [];
       && p'.active == p.active[key := Active(segmentID, leaves + [log.digest])]
       && p'.submitted == p.submitted
            + (if locatorConfigured then [Submission(log.key, AddressOf(key, segmentID, |leaves|), log.digest)] else [])
       && p'.nextIDs == (if room then p.nextIDs else p.nextIDs[key := NextID(p.nextIDs, key) + 1])
       && if inHand && !room then Sealed(p, p', key) && |p'.run| == |p.run| + 1 else p'.run == p.run
  }

  lemma IsTaken(p: Progress, ready: Progress, key: ShardKey, log: Log, inHand: bool, maxLeaves: int,
                locatorConfigured: bool)
    requires p.run != [] && Readied(p, ready, key, inHand, maxLeaves) && key in ready.active
    ensures Taken(p, Filed(ready, key, log, locatorConfigured), key, log, inHand, maxLeaves, locatorConfigured)
  {
    hide Sealed;
    if inHand && |p.active[key].leaves| >= maxLeaves {
      StillSealed(p, ready, Filed(ready, key, log, locatorConfigured), key);
    }
  }

  /** The active segment of the shard was sealed with its leaves and became the next of the forest. */
  ghost predicate Sealed(p: Progress, p': Progress, key: ShardKey) {
    && p.run != [] && p'.run != [] && key in p.active
    && exists u :: AppendStep(Now(p), Now(p'), key, p.active[key].segmentID, p.active[key].leaves, u)
  }

  /** The active segment was sealed, and an empty one with the next identifier is active now. */
  ghost predicate Renewed(p: Progress, p': Progress, key: ShardKey) {
    && Sealed(p, p', key) && |p'.run| == |p.run| + 1 && p'.submitted == p.submitted
    && p'.active == p.active[key := Active(NextID(p.nextIDs, key), [])]
    && p'.nextIDs == p.nextIDs[key := NextID(p.nextIDs, key) + 1]
  }

  lemma RenewedIs(p: Progress, p': Progress, key: ShardKey)
    ensures Renewed(p, p', key) ==> key in p'.active && p'.active[key].leaves == []
  {
    hide Sealed;
  }

  lemma SealedBy(p: Progress, p': Progress, key: ShardKey, u: HMFUpdate)
    requires p.run != [] && p'.run != [] && key in p.active
    requires AppendStep(Now(p), Now(p'), key, p.active[key].segmentID, p.active[key].leaves, u)
    ensures Sealed(p, p', key)
  {
    hide AppendStep;
  }

  lemma StillSealed(p: Progress, p': Progress, p'': Progress, key: ShardKey)
    requires Sealed(p, p', key) && p''.run != [] && Now(p'') == Now(p')
    ensures Sealed(p, p'', key)
  {
    hide AppendStep;
  }

  lemma StartIs(s: System, regionIDs: seq<Text>, numShards: nat)
    requires regionIDs != [] && numShards > 0 && ValidRegions(regionIDs)
    requires WellFormed(s.forest) && Unused(s.forest) && s.forest.regionIDs == regionIDs
    requires s.forest.numShards == numShards
    requires |s.contents| == 0 && |s.storage.meta.trees| == 0 && s.storage.meta.globalLeafCount == 0
    requires |s.storage.nodes| == 0
    ensures Init(s)
  {
    EmptyWellFormed(regionIDs, numShards);
    assert s.forest.segments == EmptyForest(regionIDs, numShards).segments;
    assert StartsAs(s, regionIDs, numShards);
  }
}
