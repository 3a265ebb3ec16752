/** Storage requests for a plan (internal/hpp/planner.go:201-283): the nodes of each tree,
    grouped by level and, for Shard trees, by storage bucket. */
module Requests {
  import opened Merkle
  import opened Sorting
  import opened ProofTypes
  import opened ShardTrees

  /** One storage partition and level; Segment, Region and Global trees have a single bucket. */
  datatype RequestKey = RequestKey(tree: TreeRef, bucketID: int, level: int)

  datatype NodeRequest = NodeRequest(key: RequestKey, nodeIndexes: seq<int>)

  const BUCKET_LEVELS := 15

  /** Nodes above the same 2^15 leaves share a bucket. */
  function ShardBucketID(level: int, nodeIndex: int): int {
    if level < BUCKET_LEVELS then nodeIndex / Pow2(BUCKET_LEVELS - level) else nodeIndex * Pow2(level - BUCKET_LEVELS)
  }

  function KeyFor(ref: NodeRef): RequestKey {
    RequestKey(ref.tree,
               if ref.tree.layer == LAYER_SHARD then ShardBucketID(ref.position.level, ref.position.index) else 0,
               ref.position.level)
  }

  function RefFor(key: RequestKey, index: int): NodeRef {
    NodeRef(key.tree, Position(key.level, index))
  }

  predicate KeyLess(a: RequestKey, b: RequestKey) {
    if a.tree != b.tree then TreeRefLess(a.tree, b.tree)
    else if a.bucketID != b.bucketID then a.bucketID < b.bucketID
    else a.level < b.level
  }

  lemma KeyOrder()
    ensures StrictOrder(KeyLess)
  {
    TreeRefOrder();
  }

  function TargetRefs(plan: TreePlan): (r: seq<NodeRef>)
    ensures |r| == |plan.targets|
  {
    seq(|plan.targets|, i requires 0 <= i < |plan.targets| => NodeRef(plan.tree, Position(0, plan.targets[i])))
  }

  function RequiredRefs(plan: TreePlan): (r: seq<NodeRef>)
    ensures |r| == |plan.required|
  {
    seq(|plan.required|, i requires 0 <= i < |plan.required| => NodeRef(plan.tree, plan.required[i]))
  }

  /** The nodes a plan needs from the store: of a Segment also the target leaves. */
  function WantedOf(plan: TreePlan): seq<NodeRef> {
    if plan.tree.layer == LAYER_SEGMENT then TargetRefs(plan) + RequiredRefs(plan)
    else if LAYER_SHARD <= plan.tree.layer <= LAYER_GLOBAL then RequiredRefs(plan)
    else []
  }

  function Wanted(trees: seq<TreePlan>): seq<NodeRef> {
    if trees == [] then [] else Wanted(trees[..|trees| - 1]) + WantedOf(trees[|trees| - 1])
  }

  predicate Nondecreasing(s: seq<int>) {
    forall i, j :: 0 <= i < j < |s| ==> s[i] <= s[j]
  }

  function Insert(s: seq<int>, x: int): (r: seq<int>)
    ensures multiset(r) == multiset(s) + multiset{x}
  {
    if s == [] || x <= s[0] then [x] + s
    else
      assert s == [s[0]] + s[1..];
      [s[0]] + Insert(s[1..], x)
  }

  lemma {:induction false} InsertOrdered(s: seq<int>, x: int)
    requires Nondecreasing(s)
    ensures Nondecreasing(Insert(s, x))
    decreases |s|
  {
    if s != [] && x > s[0] {
      var rest := Insert(s[1..], x);
      InsertOrdered(s[1..], x);
      forall i | 0 <= i < |rest| ensures s[0] <= rest[i] {
        assert rest[i] in multiset(rest);
        assert rest[i] in multiset(s[1..]) || rest[i] == x;
      }
    }
  }

  function SortInts(s: seq<int>): (r: seq<int>)
    ensures Nondecreasing(r) && multiset(r) == multiset(s)
  {
    if s == [] then []
    else
      var rest := SortInts(s[..|s| - 1]);
      InsertOrdered(rest, s[|s| - 1]);
      assert s == s[..|s| - 1] + [s[|s| - 1]];
      Insert(rest, s[|s| - 1])
  }

  /** The requests ask for each wanted node as often as it is wanted, in order, one request
      for each partition and level. */
  ghost predicate Asks(requests: seq<NodeRequest>, wanted: seq<NodeRef>) {
    && (forall i, j :: 0 <= i < j < |requests| ==> KeyLess(requests[i].key, requests[j].key))
    && (forall i :: 0 <= i < |requests| ==> AsksFor(requests[i], wanted))
    && (forall ref :: ref in wanted ==> Requested(requests, KeyFor(ref)))
  }

  ghost predicate AsksFor(request: NodeRequest, wanted: seq<NodeRef>) {
    && Nondecreasing(request.nodeIndexes)
    && Keyed(request.key, request.nodeIndexes)
    && (forall ref :: KeyFor(ref) == request.key ==>
          multiset(request.nodeIndexes)[ref.position.index] == multiset(wanted)[ref])
  }

  predicate Requested(requests: seq<NodeRequest>, key: RequestKey) {
    exists i :: 0 <= i < |requests| && requests[i].key == key
  }

  // ---- Grouping ----

  function IndexesOf(groups: map<RequestKey, seq<int>>, key: RequestKey): seq<int> {
    if key in groups then groups[key] else []
  }

  /** `groups` holds the indexes of the nodes `refs`, by request key. */
  ghost predicate Grouped(groups: map<RequestKey, seq<int>>, refs: seq<NodeRef>) {
    && (forall ref :: Counted(groups, refs, ref))
    && (forall key :: key in groups ==> Keyed(key, groups[key]))
  }

  ghost predicate Counted(groups: map<RequestKey, seq<int>>, refs: seq<NodeRef>, ref: NodeRef) {
    multiset(IndexesOf(groups, KeyFor(ref)))[ref.position.index] == multiset(refs)[ref]
  }

  ghost predicate Keyed(key: RequestKey, indexes: seq<int>) {
    forall x :: x in indexes ==> KeyFor(RefFor(key, x)) == key
  }

  lemma GroupOne(groups: map<RequestKey, seq<int>>, refs: seq<NodeRef>, ref: NodeRef)
    requires Grouped(groups, refs)
    ensures Grouped(groups[KeyFor(ref) := IndexesOf(groups, KeyFor(ref)) + [ref.position.index]], refs + [ref])
  {
    hide KeyFor, Keyed, Counted;
    KeyTree(ref);
    KeyedNone(KeyFor(ref));
    KeyedSnoc(KeyFor(ref), IndexesOf(groups, KeyFor(ref)), ref.position.index);
    var after, refs' := groups[KeyFor(ref) := IndexesOf(groups, KeyFor(ref)) + [ref.position.index]], refs + [ref];
    forall other ensures Counted(after, refs', other) {
      CountOne(groups, refs, ref, other);
    }
  }

  lemma CountOne(groups: map<RequestKey, seq<int>>, refs: seq<NodeRef>, ref: NodeRef, other: NodeRef)
    requires Counted(groups, refs, other)
    ensures Counted(groups[KeyFor(ref) := IndexesOf(groups, KeyFor(ref)) + [ref.position.index]], refs + [ref], other)
  {
    hide KeyFor;
    KeyTree(ref);
    KeyTree(other);
    CountSnoc(refs, ref, other);
    if KeyFor(other) == KeyFor(ref) {
      CountSnoc(IndexesOf(groups, KeyFor(ref)), ref.position.index, other.position.index);
    }
  }

  lemma KeyedNone(key: RequestKey)
    ensures Keyed(key, [])
  {}

  lemma KeyedSnoc(key: RequestKey, indexes: seq<int>, x: int)
    requires Keyed(key, indexes) && KeyFor(RefFor(key, x)) == key
    ensures Keyed(key, indexes + [x])
  {}

  lemma CountSnoc<T>(s: seq<T>, x: T, y: T)
    ensures multiset(s + [x])[y] == multiset(s)[y] + if x == y then 1 else 0
  {}

  lemma KeyTree(ref: NodeRef)
    ensures KeyFor(ref).tree == ref.tree && KeyFor(ref).level == ref.position.level
    ensures ref == RefFor(KeyFor(ref), ref.position.index)
  {}

  lemma NoneGrouped()
    ensures Grouped(map[], [])
  {}

  function Emitted(groups: map<RequestKey, seq<int>>): seq<NodeRequest> {
    KeyOrder();
    var keys := SortSet(KeyLess, groups.Keys);
    assert forall i :: 0 <= i < |keys| ==> keys[i] in keys;
    seq(|keys|, i requires 0 <= i < |keys| => NodeRequest(keys[i], SortInts(groups[keys[i]])))
  }

  lemma EmittedAsks(groups: map<RequestKey, seq<int>>, wanted: seq<NodeRef>)
    requires Grouped(groups, wanted)
    ensures Asks(Emitted(groups), wanted)
  {
    hide KeyLess, AsksFor, Grouped;
    KeyOrder();
    var keys, requests := SortSet(KeyLess, groups.Keys), Emitted(groups);
    forall i | 0 <= i < |requests| ensures AsksFor(requests[i], wanted) {
      assert keys[i] in keys;
      GroupAsks(groups, wanted, keys[i]);
    }
    forall ref | ref in wanted ensures Requested(requests, KeyFor(ref)) {
      WantedGrouped(groups, wanted, ref);
      assert KeyFor(ref) in keys;
      var i :| 0 <= i < |keys| && keys[i] == KeyFor(ref);
      assert requests[i].key == KeyFor(ref);
    }
  }

  lemma GroupAsks(groups: map<RequestKey, seq<int>>, wanted: seq<NodeRef>, key: RequestKey)
    requires Grouped(groups, wanted) && key in groups
    ensures AsksFor(NodeRequest(key, SortInts(groups[key])), wanted)
  {
    hide KeyFor;
    forall x | x in SortInts(groups[key]) ensures x in groups[key] { assert x in multiset(SortInts(groups[key])); }
    forall ref | KeyFor(ref) == key
      ensures multiset(SortInts(groups[key]))[ref.position.index] == multiset(wanted)[ref] {
      assert Counted(groups, wanted, ref);
    }
  }

  lemma WantedGrouped(groups: map<RequestKey, seq<int>>, wanted: seq<NodeRef>, ref: NodeRef)
    requires Grouped(groups, wanted) && ref in wanted
    ensures KeyFor(ref) in groups
  {
    hide KeyFor;
    assert Counted(groups, wanted, ref) && multiset(wanted)[ref] > 0;
  }

  method BuildRequests(trees: seq<TreePlan>) returns (segments: seq<NodeRequest>, uppers: seq<NodeRequest>)
    ensures Asks(segments, Wanted(SegmentPlans(trees))) && Asks(uppers, Wanted(UpperPlans(trees)))
  {
    hide Grouped, Asks, Wanted, SegmentPlans, UpperPlans, TargetRefs, RequiredRefs;
    var segmentGroups: map<RequestKey, seq<int>> := map[];
    var upperGroups: map<RequestKey, seq<int>> := map[];
    NoneGrouped();
    NoneWanted();
    for i := 0 to |trees|
      invariant Grouped(segmentGroups, Wanted(SegmentPlans(trees[..i])))
      invariant Grouped(upperGroups, Wanted(UpperPlans(trees[..i])))
    {
      var tree := trees[i];
      PlanSplit(trees, i);
      if tree.tree.layer == LAYER_SEGMENT {
        ghost var before := Wanted(SegmentPlans(trees[..i]));
        segmentGroups := AddTargets(segmentGroups, tree, before);
        segmentGroups := AddRequired(segmentGroups, tree, before + TargetRefs(tree));
        assert before + TargetRefs(tree) + RequiredRefs(tree) == before + (TargetRefs(tree) + RequiredRefs(tree));
      } else if LAYER_SHARD <= tree.tree.layer <= LAYER_GLOBAL {
        upperGroups := AddRequired(upperGroups, tree, Wanted(UpperPlans(trees[..i])));
      }
    }
    assert trees[..|trees|] == trees;
    EmittedAsks(segmentGroups, Wanted(SegmentPlans(trees)));
    EmittedAsks(upperGroups, Wanted(UpperPlans(trees)));
    return Emitted(segmentGroups), Emitted(upperGroups);
  }

  function SegmentPlans(trees: seq<TreePlan>): seq<TreePlan> {
    if trees == [] then [] else
      var last := trees[|trees| - 1];
      SegmentPlans(trees[..|trees| - 1]) + if last.tree.layer == LAYER_SEGMENT then [last] else []
  }

  function UpperPlans(trees: seq<TreePlan>): seq<TreePlan> {
    if trees == [] then [] else
      var last := trees[|trees| - 1];
      UpperPlans(trees[..|trees| - 1]) + if last.tree.layer != LAYER_SEGMENT then [last] else []
  }

  lemma NoneWanted()
    ensures Wanted(SegmentPlans([])) == [] && Wanted(UpperPlans([])) == []
    ensures forall trees: seq<TreePlan> {:trigger trees[..0]} :: trees[..0] == []
  {}

  lemma PlanSplit(trees: seq<TreePlan>, i: nat)
    requires i < |trees|
    ensures var tree := trees[i];
      && Wanted(SegmentPlans(trees[..i + 1])) == Wanted(SegmentPlans(trees[..i]))
           + (if tree.tree.layer == LAYER_SEGMENT then TargetRefs(tree) + RequiredRefs(tree) else [])
      && Wanted(UpperPlans(trees[..i + 1])) == Wanted(UpperPlans(trees[..i]))
           + (if LAYER_SHARD <= tree.tree.layer <= LAYER_GLOBAL then RequiredRefs(tree) else [])
      && Wanted(SegmentPlans(trees[..i])) + [] == Wanted(SegmentPlans(trees[..i]))
      && Wanted(UpperPlans(trees[..i])) + [] == Wanted(UpperPlans(trees[..i]))
  {
    hide TargetRefs, RequiredRefs;
    var tree := trees[i];
    assert trees[..i + 1][..i] == trees[..i];
    WantedSnoc(SegmentPlans(trees[..i]), tree);
    WantedSnoc(UpperPlans(trees[..i]), tree);
    assert SegmentPlans(trees[..i]) + [] == SegmentPlans(trees[..i])
      && UpperPlans(trees[..i]) + [] == UpperPlans(trees[..i]);
  }

  lemma WantedSnoc(trees: seq<TreePlan>, tree: TreePlan)
    ensures Wanted(trees + [tree]) == Wanted(trees) + WantedOf(tree)
  {
    assert (trees + [tree])[..|trees|] == trees;
  }

  method AddTargets(groups0: map<RequestKey, seq<int>>, plan: TreePlan, ghost refs: seq<NodeRef>)
    returns (groups: map<RequestKey, seq<int>>)
    requires Grouped(groups0, refs) && plan.tree.layer == LAYER_SEGMENT
    ensures Grouped(groups, refs + TargetRefs(plan))
  {
    hide Grouped;
    var key := RequestKey(plan.tree, 0, 0);
    groups := groups0[key := IndexesOf(groups0, key)];
    Touch(groups0, refs, key);
    for i := 0 to |plan.targets|
      invariant Grouped(groups, refs + TargetRefs(plan)[..i])
    {
      GroupOne(groups, refs + TargetRefs(plan)[..i], TargetRefs(plan)[i]);
      assert refs + TargetRefs(plan)[..i] + [TargetRefs(plan)[i]] == refs + TargetRefs(plan)[..i + 1];
      groups := groups[key := IndexesOf(groups, key) + [plan.targets[i]]];
    }
    assert TargetRefs(plan)[..|plan.targets|] == TargetRefs(plan);
    assert refs + [] == refs;
  }

  lemma Touch(groups: map<RequestKey, seq<int>>, refs: seq<NodeRef>, key: RequestKey)
    requires Grouped(groups, refs)
    ensures Grouped(groups[key := IndexesOf(groups, key)], refs + [])
  {
    hide KeyFor, Keyed;
    KeyedNone(key);
    assert refs + [] == refs;
    var after := groups[key := IndexesOf(groups, key)];
    forall ref ensures Counted(after, refs, ref) { assert Counted(groups, refs, ref); }
  }

  method AddRequired(groups0: map<RequestKey, seq<int>>, plan: TreePlan, ghost refs: seq<NodeRef>)
    returns (groups: map<RequestKey, seq<int>>)
    requires Grouped(groups0, refs)
    ensures Grouped(groups, refs + RequiredRefs(plan))
  {
    hide Grouped;
    groups := groups0;
    assert refs + RequiredRefs(plan)[..0] == refs;
    for i := 0 to |plan.required|
      invariant Grouped(groups, refs + RequiredRefs(plan)[..i])
    {
      var key := KeyFor(NodeRef(plan.tree, plan.required[i]));
      GroupOne(groups, refs + RequiredRefs(plan)[..i], RequiredRefs(plan)[i]);
      assert refs + RequiredRefs(plan)[..i] + [RequiredRefs(plan)[i]] == refs + RequiredRefs(plan)[..i + 1];
      groups := groups[key := IndexesOf(groups, key) + [plan.required[i].index]];
    }
    assert RequiredRefs(plan)[..|plan.required|] == RequiredRefs(plan);
  }

  // ---- What is asked for ----

  function AskedRefs(requests: seq<NodeRequest>): set<NodeRef> {
    set i, x | 0 <= i < |requests| && x in requests[i].nodeIndexes :: RefFor(requests[i].key, x)
  }

  /** Exactly the wanted nodes are asked for. */
  lemma AsksAll(requests: seq<NodeRequest>, wanted: seq<NodeRef>)
    requires Asks(requests, wanted)
    ensures forall ref :: ref in AskedRefs(requests) <==> ref in wanted
  {
    hide KeyFor, KeyLess;
    forall ref ensures ref in AskedRefs(requests) <==> ref in wanted {
      KeyTree(ref);
      if ref in AskedRefs(requests) {
        var i, x :| 0 <= i < |requests| && x in requests[i].nodeIndexes && ref == RefFor(requests[i].key, x);
        assert AsksFor(requests[i], wanted);
        assert x in multiset(requests[i].nodeIndexes);
        assert multiset(wanted)[ref] > 0;
      }
      if ref in wanted {
        var i :| 0 <= i < |requests| && requests[i].key == KeyFor(ref);
        assert AsksFor(requests[i], wanted);
        assert multiset(wanted)[ref] > 0;
        assert ref.position.index in multiset(requests[i].nodeIndexes);
      }
    }
  }

  /** How often the requests list a node. */
  function TimesAsked(requests: seq<NodeRequest>, ref: NodeRef): nat {
    if requests == [] then 0
    else TimesAsked(requests[..|requests| - 1], ref) + TimesListed(requests[|requests| - 1], ref)
  }

  function TimesListed(request: NodeRequest, ref: NodeRef): nat {
    if request.key.tree == ref.tree && request.key.level == ref.position.level
      then multiset(request.nodeIndexes)[ref.position.index] else 0
  }

  /** A node is asked for as often as it is wanted, over all requests. */
  lemma AsksTimes(requests: seq<NodeRequest>, wanted: seq<NodeRef>, ref: NodeRef)
    requires Asks(requests, wanted)
    ensures TimesAsked(requests, ref) == multiset(wanted)[ref]
  {
    hide KeyFor, KeyLess, TimesAsked, TimesListed, AsksFor;
    AskedUpTo(requests, wanted, ref, |requests|);
    assert requests[..|requests|] == requests;
    if !Requested(requests, KeyFor(ref)) { assert ref !in wanted; }
  }

  lemma {:induction false} AskedUpTo(requests: seq<NodeRequest>, wanted: seq<NodeRef>, ref: NodeRef, n: nat)
    requires Asks(requests, wanted) && n <= |requests|
    ensures TimesAsked(requests[..n], ref) == if Requested(requests[..n], KeyFor(ref)) then multiset(wanted)[ref] else 0
    decreases n
  {
    hide KeyFor, KeyLess, TimesListed, AsksFor;
    if n > 0 {
      AskedUpTo(requests, wanted, ref, n - 1);
      var before, last := requests[..n - 1], requests[n - 1];
      assert requests[..n][..n - 1] == before;
      assert AsksFor(last, wanted);
      ListedIn(last, wanted, ref);
      if last.key == KeyFor(ref) {
        KeyOrder();
        forall i | 0 <= i < n - 1 ensures before[i].key != last.key {
          assert KeyLess(requests[i].key, requests[n - 1].key);
        }
        assert requests[..n][n - 1].key == KeyFor(ref);
      } else {
        if Requested(before, KeyFor(ref)) {
          var i :| 0 <= i < |before| && before[i].key == KeyFor(ref);
          assert requests[..n][i].key == KeyFor(ref);
        }
      }
    }
  }

  /** Only the request with the node's own key lists it, as often as it is wanted. */
  lemma ListedIn(request: NodeRequest, wanted: seq<NodeRef>, ref: NodeRef)
    requires AsksFor(request, wanted)
    ensures TimesListed(request, ref) == if request.key == KeyFor(ref) then multiset(wanted)[ref] else 0
  {
    hide KeyFor;
    KeyTree(ref);
    if request.key.tree == ref.tree && request.key.level == ref.position.level && request.key != KeyFor(ref) {
      assert RefFor(request.key, ref.position.index) == ref;
      assert ref.position.index !in request.nodeIndexes;
      assert ref.position.index !in multiset(request.nodeIndexes);
    }
  }
}
