/** The state the segment workers share (internal/hm/segment_worker.go, internal/hm/manager.go): sealed segments in the
    forest, one active segment a shard, and the locator mappings submitted so far. */
module SegmentWorkers {
  import opened Hashing
  import opened Merkle
  import opened NodeStore
  import opened Forests
  import opened ForestTrees
  import opened HierarchicalForest
  import opened StoredForest
  import opened Persistence

  /** A segment that still takes leaves. */
  datatype Active = Active(segmentID: int, leaves: seq<Digest>)

  /** A mapping handed to the locator, and the log it is for. */
  datatype Submission = Submission(key: LocatorKey, address: P.PhysicalAddress, digest: Digest)

  /** The states of forest and storage so far, the active segments, the next identifiers, and what was submitted. */
  datatype Progress = Progress(run: seq<System>, active: map<ShardKey, Active>, nextIDs: map<ShardKey, int>,
                               submitted: seq<Submission>)

  function NextID(nextIDs: map<ShardKey, int>, key: ShardKey): int {
    if key in nextIDs then nextIDs[key] else 0
  }

  function Now(p: Progress): System
    requires p.run != []
  {
    p.run[|p.run| - 1]
  }

  ghost predicate InActive(p: Progress, a: P.PhysicalAddress, digest: Digest) {
    var key := ShardKey(a.regionID, a.shardID);
    key in p.active && p.active[key].segmentID == a.segmentID && 0 <= a.leafID < |p.active[key].leaves|
    && p.active[key].leaves[a.leafID] == digest
  }

  ghost predicate InSealed(contents: Contents, a: P.PhysicalAddress, digest: Digest) {
    var t := P.SegmentTree(a.regionID, a.shardID, a.segmentID);
    t in contents && 0 <= a.leafID < |contents[t]| && contents[t][a.leafID] == digest
  }

  /** The submitted address holds the log's digest, in the active or in a sealed segment. */
  ghost predicate Holding(p: Progress, s: Submission)
    requires p.run != []
  {
    InActive(p, s.address, s.digest) || InSealed(Now(p).contents, s.address, s.digest)
  }

  ghost predicate ActiveOK(p: Progress)
    requires p.run != []
  {
    forall key :: key in p.active ==>
      key in Now(p).forest.segments && 0 <= p.active[key].segmentID < NextID(p.nextIDs, key)
      && !HasSegment(Now(p).forest.segments[key], p.active[key].segmentID)
  }

  /** Sealed segments have identifiers that were given out, and only they have contents. */
  ghost predicate SealedOK(p: Progress)
    requires p.run != []
  {
    && (forall key, id :: key in Now(p).forest.segments && HasSegment(Now(p).forest.segments[key], id) ==>
        0 <= id < NextID(p.nextIDs, key))
    && (forall key :: NextID(p.nextIDs, key) >= 0)
    && forall t :: t in Now(p).contents ==> t.layer == P.LAYER_SEGMENT && HasTree(Now(p).forest, t)
  }

  ghost predicate SubmittedOK(p: Progress)
    requires p.run != []
  {
    && (forall i :: 0 <= i < |p.submitted| ==> Holding(p, p.submitted[i]))
    && forall i, j :: 0 <= i < j < |p.submitted| ==> p.submitted[i].address != p.submitted[j].address
  }

  ghost predicate Consistent(p: Progress) {
    p.run != [] && IsRun(p.run) && ActiveOK(p) && SealedOK(p) && SubmittedOK(p)
  }

  /** Mappings are only added, and sealed segments keep their leaves. */
  ghost predicate Later(p: Progress, p': Progress) {
    && |p.run| <= |p'.run| && p'.run[..|p.run|] == p.run
    && |p.submitted| <= |p'.submitted| && p'.submitted[..|p.submitted|] == p.submitted
    && (p.run != [] ==> forall t :: t in Now(p).contents ==>
        t in Now(p').contents && Now(p').contents[t] == Now(p).contents[t])
  }

  lemma LaterThrough(a: Progress, b: Progress, c: Progress)
    requires Later(a, b) && Later(b, c) && a.run != []
    ensures Later(a, c)
  {
    assert c.run[..|a.run|] == c.run[..|b.run|][..|a.run|];
    assert c.submitted[..|a.submitted|] == c.submitted[..|b.submitted|][..|a.submitted|];
  }

  // ---- Steps ----

  function Skipped(p: Progress, key: ShardKey): Progress {
    p.(nextIDs := p.nextIDs[key := NextID(p.nextIDs, key) + 1])
  }

  /** A new segment becomes active. */
  function Opened(p: Progress, key: ShardKey, segmentID: int): Progress {
    p.(active := p.active[key := Active(segmentID, [])])
  }

  /** An identifier that was given out for a segment that is not sealed. */
  ghost predicate Given(p: Progress, key: ShardKey, segmentID: int)
    requires p.run != []
  {
    0 <= segmentID < NextID(p.nextIDs, key)
    && (key in Now(p).forest.segments ==> !HasSegment(Now(p).forest.segments[key], segmentID))
  }

  lemma SkipKeeps(p: Progress, key: ShardKey)
    requires Consistent(p)
    ensures Consistent(Skipped(p, key)) && Later(p, Skipped(p, key)) && Now(Skipped(p, key)) == Now(p)
    ensures Given(Skipped(p, key), key, NextID(p.nextIDs, key))
  {
    hide IsRun, InSealed, SealedOK;
    var p' := Skipped(p, key);
    assert Now(p') == Now(p);
    assert p'.run[..|p.run|] == p.run && p'.submitted[..|p.submitted|] == p.submitted;
    SkipSealed(p, p', key);
    NextIsFresh(p, key);
    forall i | 0 <= i < |p.submitted| ensures Holding(p', p'.submitted[i]) {
      assert Holding(p, p.submitted[i]);
    }
  }

  lemma SkipSealed(p: Progress, p': Progress, key: ShardKey)
    requires p.run != [] && SealedOK(p) && p'.run == p.run && p'.nextIDs == p.nextIDs[key := NextID(p.nextIDs, key) + 1]
    ensures SealedOK(p')
  {
    assert Now(p') == Now(p);
    assert forall k :: NextID(p'.nextIDs, k) >= NextID(p.nextIDs, k);
  }

  lemma NextIsFresh(p: Progress, key: ShardKey)
    requires p.run != [] && SealedOK(p)
    ensures NextID(p.nextIDs, key) >= 0
    ensures key in Now(p).forest.segments ==> !HasSegment(Now(p).forest.segments[key], NextID(p.nextIDs, key))
  {}

  lemma OpenKeeps(p: Progress, key: ShardKey, segmentID: int)
    requires Consistent(p) && key !in p.active && key in Now(p).forest.segments && Given(p, key, segmentID)
    ensures Consistent(Opened(p, key, segmentID)) && Later(p, Opened(p, key, segmentID))
    ensures Now(Opened(p, key, segmentID)) == Now(p)
  {
    hide IsRun, InSealed, SealedOK, HasSegment;
    var p' := Opened(p, key, segmentID);
    assert Now(p') == Now(p);
    assert p'.run[..|p.run|] == p.run && p'.submitted[..|p.submitted|] == p.submitted;
    assert SealedOK(p') by { OpenedSealed(p, key, segmentID); }
    forall i | 0 <= i < |p.submitted| ensures Holding(p', p'.submitted[i]) {
      assert Holding(p, p.submitted[i]);
    }
  }

  lemma OpenedSealed(p: Progress, key: ShardKey, segmentID: int)
    requires p.run != [] && SealedOK(p)
    ensures SealedOK(Opened(p, key, segmentID))
  {
    assert Now(Opened(p, key, segmentID)) == Now(p);
  }

  /** A leaf is appended to the active segment. */
  function Grown(p: Progress, key: ShardKey, digest: Digest): Progress
    requires key in p.active
  {
    p.(active := p.active[key := p.active[key].(leaves := p.active[key].leaves + [digest])])
  }

  function AddressOf(key: ShardKey, segmentID: int, leafID: int): P.PhysicalAddress {
    P.PhysicalAddress(key.regionID, key.shardID, segmentID, leafID)
  }

  /** The mapping of the last leaf of the active segment is submitted. */
  function Propagated(p: Progress, key: ShardKey, locatorKey: LocatorKey, digest: Digest): Progress
    requires key in p.active
  {
    p.(submitted := p.submitted
       + [Submission(locatorKey, AddressOf(key, p.active[key].segmentID, |p.active[key].leaves| - 1), digest)])
  }

  lemma GrowKeeps(p: Progress, key: ShardKey, digest: Digest)
    requires Consistent(p) && key in p.active
    ensures Consistent(Grown(p, key, digest)) && Later(p, Grown(p, key, digest)) && Now(Grown(p, key, digest)) == Now(p)
  {
    hide IsRun, HasSegment, InSealed, SealedOK;
    var p' := Grown(p, key, digest);
    GrownSealed(p, key, digest);
    forall i | 0 <= i < |p.submitted| ensures Holding(p', p'.submitted[i]) {
      assert Holding(p, p.submitted[i]);
    }
  }

  lemma GrownSealed(p: Progress, key: ShardKey, digest: Digest)
    requires p.run != [] && SealedOK(p) && key in p.active
    ensures SealedOK(Grown(p, key, digest))
  {
    assert Now(Grown(p, key, digest)) == Now(p);
  }

  /** The mapping of a leaf appended just now is the first for its address. */
  lemma PropagateKeeps(p: Progress, key: ShardKey, digest: Digest, locatorKey: LocatorKey)
    requires Consistent(p) && key in p.active
    ensures var p' := Propagated(Grown(p, key, digest), key, locatorKey, digest);
      Consistent(p') && Later(p, p') && Now(p') == Now(p)
  {
    hide IsRun, HasSegment, InSealed, SealedOK;
    var grown := Grown(p, key, digest);
    var p', address := Propagated(grown, key, locatorKey, digest),
      AddressOf(key, p.active[key].segmentID, |p.active[key].leaves|);
    GrownSealed(p, key, digest);
    assert SealedOK(p') by { SubmittingSealed(grown, p'); }
    forall i | 0 <= i < |p.submitted| ensures Holding(p', p.submitted[i]) && p.submitted[i].address != address {
      assert Holding(p, p.submitted[i]);
      if InSealed(Now(p).contents, p.submitted[i].address, p.submitted[i].digest) {
        SealedIn(p, p.submitted[i]);
        if ShardKey(p.submitted[i].address.regionID, p.submitted[i].address.shardID) == key {
          NotActive(p, key, p.submitted[i].address);
        }
      }
    }
    assert InActive(p', address, digest);
  }

  lemma SubmittingSealed(p: Progress, p': Progress)
    requires p.run != [] && SealedOK(p) && p' == p.(submitted := p'.submitted)
    ensures SealedOK(p')
  {
    var x, y := Now(p), Now(p');
    assert x == y;
  }

  lemma SealedIn(p: Progress, s: Submission)
    requires p.run != [] && InSealed(Now(p).contents, s.address, s.digest)
    ensures P.SegmentTree(s.address.regionID, s.address.shardID, s.address.segmentID) in Now(p).contents
  {}

  /** No address in a sealed segment is in the active one. */
  lemma NotActive(p: Progress, key: ShardKey, a: P.PhysicalAddress)
    requires p.run != [] && ActiveOK(p) && SealedOK(p) && key in p.active
    requires P.SegmentTree(a.regionID, a.shardID, a.segmentID) in Now(p).contents
    requires ShardKey(a.regionID, a.shardID) == key
    ensures a.segmentID != p.active[key].segmentID
  {
    hide HasSegment;
    assert HasTree(Now(p).forest, P.SegmentTree(a.regionID, a.shardID, a.segmentID));
  }

  /** The active segment is sealed, appended to the forest, and no longer active. */
  function Closed(p: Progress, key: ShardKey, s': System): Progress {
    p.(run := p.run + [s'], active := p.active - {key})
  }

  lemma CloseKeeps(p: Progress, key: ShardKey, s': System, u: HMFUpdate)
    requires Consistent(p) && key in p.active
    requires AppendStep(Now(p), s', key, p.active[key].segmentID, p.active[key].leaves, u)
    ensures Consistent(Closed(p, key, s')) && Later(p, Closed(p, key, s')) && Now(Closed(p, key, s')) == s'
  {
    hide IsRun, AppendStep, Holding, SealedOK, ActiveOK;
    var p' := Closed(p, key, s');
    RunGrows(p.run, s', key, p.active[key].segmentID, p.active[key].leaves, u);
    ClosedSealed(p, key, s', u);
    ContentsKept(p, key, s', u);
    forall i | 0 <= i < |p.submitted| ensures Holding(p', p.submitted[i]) {
      assert Holding(p, p.submitted[i]);
      StillHeld(p, key, s', u, p.submitted[i]);
    }
  }

  /** The new segment had no leaves stored before. */
  lemma ContentsKept(p: Progress, key: ShardKey, s': System, u: HMFUpdate)
    requires p.run != [] && ActiveOK(p) && SealedOK(p)
    requires key in p.active && AppendStep(Now(p), s', key, p.active[key].segmentID, p.active[key].leaves, u)
    ensures SegmentRef(key, p.active[key].segmentID) !in Now(p).contents
    ensures forall t :: t in Now(p).contents ==> t in s'.contents && s'.contents[t] == Now(p).contents[t]
  {
    hide Reports, Persist, Root, NodesBelow, HasSegment;
    var t := SegmentRef(key, p.active[key].segmentID);
    assert HasTree(Now(p).forest, t) <==> HasSegment(Now(p).forest.segments[key], p.active[key].segmentID);
  }

  lemma RunGrows(run: seq<System>, s': System, key: ShardKey, segmentID: int, leaves: seq<Digest>, u: HMFUpdate)
    requires IsRun(run) && AppendStep(run[|run| - 1], s', key, segmentID, leaves, u)
    ensures IsRun(run + [s'])
  {
    hide Init, AppendStep;
    var longer := run + [s'];
    forall i | 0 <= i < |longer| - 1 ensures Next(longer[i], longer[i + 1]) {
      if i < |run| - 1 { assert Next(run[i], run[i + 1]); }
    }
  }

  lemma ClosedSealed(p: Progress, key: ShardKey, s': System, u: HMFUpdate)
    requires p.run != [] && ActiveOK(p) && SealedOK(p)
    requires key in p.active && AppendStep(Now(p), s', key, p.active[key].segmentID, p.active[key].leaves, u)
    ensures ActiveOK(Closed(p, key, s')) && SealedOK(Closed(p, key, s'))
  {
    hide Reports, Persist, Root, NodesBelow, HasSegment, HasTree, WellFormed;
    var f, sealed := Now(p).forest,
      SealedSegment(p.active[key].segmentID, |p.active[key].leaves|, Root(p.active[key].leaves));
    forall id ensures HasSegment(s'.forest.segments[key], id) <==>
      HasSegment(f.segments[key], id) || id == sealed.segmentID {
      LongerSegments(f.segments[key], sealed, id);
    }
    forall t ensures HasTree(s'.forest, t) <==> HasTree(f, t) || t == SegmentRef(key, sealed.segmentID) {
      AppendedTrees(f, key, sealed, t);
    }
  }

  lemma LongerSegments(segments: seq<SealedSegment>, sealed: SealedSegment, id: int)
    ensures HasSegment(segments + [sealed], id) <==> HasSegment(segments, id) || id == sealed.segmentID
  {
    var longer := segments + [sealed];
    assert longer[|segments|] == sealed;
    if HasSegment(segments, id) {
      var i :| 0 <= i < |segments| && segments[i].segmentID == id;
      assert longer[i] == segments[i];
    }
  }

  lemma StillHeld(p: Progress, key: ShardKey, s': System, u: HMFUpdate, s: Submission)
    requires p.run != [] && ActiveOK(p) && SealedOK(p) && Holding(p, s)
    requires key in p.active && AppendStep(Now(p), s', key, p.active[key].segmentID, p.active[key].leaves, u)
    ensures Holding(Closed(p, key, s'), s)
  {
    hide Reports, Persist, Root, NodesBelow, HasSegment;
    if InSealed(Now(p).contents, s.address, s.digest) && ShardKey(s.address.regionID, s.address.shardID) == key {
      NotActive(p, key, s.address);
    }
  }

  // ---- Addresses are stable ----

  /** A submitted mapping names an address of its own; once its segment is sealed, the forest holds the log's digest
      there at every later state. */
  lemma MappingsAreStable(p: Progress, p': Progress, i: nat)
    requires Consistent(p) && Consistent(p') && Later(p, p') && i < |p.submitted|
    requires InSealed(Now(p).contents, p.submitted[i].address, p.submitted[i].digest)
    ensures var s, now := p.submitted[i], Now(p');
      && p'.submitted[i] == s
      && (forall j :: 0 <= j < |p'.submitted| && j != i ==> p'.submitted[j].address != s.address)
      && Inv(now) && Sealed(now.forest, now.contents, s.address)
      && LeavesOf(now.forest, now.contents, P.SegmentOf(s.address))[s.address.leafID] == s.digest
  {
    hide Faithful, Complete, WellFormed, Backed, Init, Next, HasSegment;
    RunsHold(p'.run, |p'.run| - 1);
    assert p'.submitted[i] == p'.submitted[..|p.submitted|][i];
    assert HasTree(Now(p').forest, P.SegmentOf(p.submitted[i].address));
  }
}
