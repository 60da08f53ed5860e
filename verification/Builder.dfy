/** The template builder's dependency tracking: packages/core/src/cloudformation/builder.ts. */
module Builder {
  import opened OrderedSets
  import opened Graphs
  import opened Templates

  datatype BuiltResource = BuiltResource(
    resourceType: string,
    properties: Json,
    dependsOn: DependsOn,
    condition: string,
    deletionPolicy: string,
    updateReplacePolicy: string)

  /** Unset options are empty strings, which the source does not tell apart from absent ones. */
  datatype Options = Options(
    dependsOn: DependsOn, condition: string, deletionPolicy: string, updateReplacePolicy: string)

  datatype Resolution = Resolved | Circular(resource: string)

  /** The `DependsOn` attribute a resource ends up with: an empty name is dropped. */
  function Kept(d: DependsOn): DependsOn {
    if d == One("") then NoDependsOn else d
  }

  /** The locals of `resolveDependencies`; `finished` lists the names whose call has returned. */
  class ResolveState {
    var visited: set<Name>
    var recursionStack: set<Name>
    ghost var finished: seq<Name>

    constructor ()
      ensures visited == {} && recursionStack == {} && finished == []
    {
      visited, recursionStack, finished := {}, {}, [];
    }

    ghost predicate Valid(g: Graph)
      reads this
    {
      ResolveInvariant(g, visited, recursionStack, finished)
    }
  }

  ghost predicate ResolveInvariant(g: Graph, visited: set<Name>, stack: set<Name>, finished: seq<Name>) {
    && DependenciesFirst(g, finished)
    && visited == Elements(finished) + stack
    && Elements(finished) !! stack
    && visited <= Names(g)
  }

  lemma EnterKeepsInvariant(g: Graph, visited: set<Name>, stack: set<Name>, finished: seq<Name>, n: Name)
    requires ResolveInvariant(g, visited, stack, finished)
    requires n in Names(g) && n !in visited
    ensures ResolveInvariant(g, visited + {n}, stack + {n}, finished)
    ensures stack <= visited && visited + {n} <= Names(g)
  {}

  lemma LeaveKeepsInvariant(g: Graph, visited: set<Name>, stack: set<Name>, finished: seq<Name>, n: Name)
    requires ResolveInvariant(g, visited, stack, finished) && n in stack
    requires forall d | Edge(g, n, d) :: d in visited && d !in stack
    ensures ResolveInvariant(g, visited, stack - {n}, finished + [n])
  {
    assert forall d | Edge(g, n, d) :: d in Elements(finished);
    AppendKeepsOrder(g, finished, {}, n);
    assert Elements(finished + [n]) == Elements(finished) + {n};
  }

  function DependsOnRelation(resources: map<string, BuiltResource>): Graph {
    map a | a in resources :: Listed(resources[a].dependsOn)
  }

  /** `after` has the edges of `before` and those from `a` to each of `names`. */
  ghost predicate AddsEdges(before: Graph, after: Graph, a: Name, names: seq<Name>) {
    forall x, y :: Edge(after, x, y) <==> Edge(before, x, y) || (x == a && y in names)
  }

  /** Every `DependsOn` of the template is an edge of `g`. */
  ghost predicate Covers(g: Graph, resources: map<string, BuiltResource>) {
    forall a, b | a in resources && b in Listed(resources[a].dependsOn) :: Edge(g, a, b)
  }

  lemma NoNewEdges(g: Graph, a: Name)
    ensures AddsEdges(g, g, a, []) && (a !in g ==> AddsEdges(g, g[a := []], a, []))
  {}

  lemma EmptyListIsASet(g: Graph, a: Name)
    requires ListsSets(g)
    ensures ListsSets(g[a := []])
  {}

  lemma TrackOne(before: Graph, now: Graph, a: Name, done: seq<Name>, x: Name)
    requires AddsEdges(before, now, a, done) && a in now && ListsSets(now)
    ensures AddsEdges(before, now[a := Add(now[a], x)], a, done + [x])
    ensures ListsSets(now[a := Add(now[a], x)])
  {
    var after := now[a := Add(now[a], x)];
    forall y, z
      ensures Edge(after, y, z) <==> Edge(now, y, z) || (y == a && z == x)
    {
      assert y == a ==> after[y] == Add(now[a], x);
    }
  }

  lemma TrackingKeepsCover(
    before: Graph, after: Graph, a: Name, names: seq<Name>, resources: map<string, BuiltResource>)
    requires AddsEdges(before, after, a, names) && Covers(before, resources)
    ensures Covers(after, resources)
  {}

  lemma OneMoreId(ids: seq<string>, id: string)
    requires NoDup(ids) && id !in ids
    ensures NoDup(ids + [id])
  {}

  class CloudFormationBuilder {
    var resources: map<string, BuiltResource>
    var trackedIds: seq<string>
    var resourceDependencies: map<string, seq<string>>

    constructor ()
      ensures Valid() && resources == map[] && resourceDependencies == map[]
    {
      resources, trackedIds, resourceDependencies := map[], [], map[];
    }

    /** The tracked map covers the `DependsOn` of every resource the template holds. */
    ghost predicate Valid()
      reads this
    {
      && NoDup(trackedIds) && (forall k :: k in trackedIds <==> k in resourceDependencies)
      && ListsSets(resourceDependencies)
      && Covers(resourceDependencies, resources)
    }

    /** The `DependsOn` relation of the template as it stands. */
    ghost function DependsOnGraph(): Graph
      reads this
    {
      DependsOnRelation(resources)
    }

    method AddResource(logicalId: string, resourceType: string, properties: Json, options: Options)
      requires Valid()
      modifies this
      ensures Valid()
      ensures resources == old(resources)[logicalId := BuiltResource(
                resourceType, properties, Kept(options.dependsOn),
                options.condition, options.deletionPolicy, options.updateReplacePolicy)]
      ensures AddsEdges(old(resourceDependencies), resourceDependencies, logicalId, Listed(options.dependsOn))
    {
      var resource := BuiltResource(resourceType, properties, NoDependsOn, "", "", "");
      if options.dependsOn != NoDependsOn && options.dependsOn != One("") {
        resource := resource.(dependsOn := options.dependsOn);
        TrackDependency(logicalId, Listed(options.dependsOn));
      }
      if options.condition != "" {
        resource := resource.(condition := options.condition);
      }
      if options.deletionPolicy != "" {
        resource := resource.(deletionPolicy := options.deletionPolicy);
      }
      if options.updateReplacePolicy != "" {
        resource := resource.(updateReplacePolicy := options.updateReplacePolicy);
      }
      resources := resources[logicalId := resource];
    }

    method TrackDependency(resource: string, deps: seq<string>)
      requires Valid()
      modifies this`trackedIds, this`resourceDependencies
      ensures Valid()
      ensures AddsEdges(old(resourceDependencies), resourceDependencies, resource, deps)
    {
      hide AddsEdges, Covers, ListsSets, NoDup;
      EmptyListIsASet(resourceDependencies, resource);
      if resource !in resourceDependencies {
        OneMoreId(trackedIds, resource);
        trackedIds := trackedIds + [resource];
        resourceDependencies := resourceDependencies[resource := []];
      }
      NoNewEdges(old(resourceDependencies), resource);
      for i := 0 to |deps|
        invariant NoDup(trackedIds) && (forall k :: k in trackedIds <==> k in resourceDependencies)
        invariant ListsSets(resourceDependencies) && resource in resourceDependencies
        invariant AddsEdges(old(resourceDependencies), resourceDependencies, resource, deps[..i])
      {
        TrackOne(old(resourceDependencies), resourceDependencies, resource, deps[..i], deps[i]);
        assert deps[..i + 1] == deps[..i] + [deps[i]];
        resourceDependencies := resourceDependencies[resource := Add(resourceDependencies[resource], deps[i])];
      }
      assert deps[..|deps|] == deps;
      TrackingKeepsCover(old(resourceDependencies), resourceDependencies, resource, deps, resources);
    }

    /** The inner `visit`; `trail` is the chain of calls in progress. */
    method Visit(state: ResolveState, resource: string, ghost trail: seq<string>) returns (r: Resolution)
      requires state.Valid(resourceDependencies) && resource in Names(resourceDependencies)
      requires NoDup(trail) && state.recursionStack == Elements(trail)
      requires trail != [] ==>
        IsPath(resourceDependencies, trail) && Edge(resourceDependencies, trail[|trail| - 1], resource)
      modifies state
      ensures r.Circular? ==> exists p :: IsCycle(resourceDependencies, p) && p[0] == r.resource
      ensures r.Resolved? ==>
        && state.Valid(resourceDependencies) && state.recursionStack == old(state.recursionStack)
        && old(state.visited) + {resource} <= state.visited && resource !in state.recursionStack
      decreases Names(resourceDependencies) - state.visited
    {
      hide ResolveInvariant, IsPath, Names, CycleFrom;
      ghost var g := resourceDependencies;
      if resource in state.recursionStack {
        ClosingAPath(g, trail, resource);
        assert IsCycle(g, CycleFrom(trail, resource));
        return Circular(resource);
      }
      if resource in state.visited {
        return Resolved;
      }
      EnterKeepsInvariant(g, state.visited, state.recursionStack, state.finished, resource);
      state.visited := state.visited + {resource};
      state.recursionStack := state.recursionStack + {resource};
      ExtendPath(g, trail, resource);
      if resource in resourceDependencies {
        var deps := resourceDependencies[resource];
        for i := 0 to |deps|
          invariant state.Valid(g) && state.recursionStack == old(state.recursionStack) + {resource}
          invariant old(state.visited) + {resource} <= state.visited
          invariant forall k | 0 <= k < i :: deps[k] in state.visited && deps[k] !in state.recursionStack
        {
          EdgeJoinsNames(g, resource, deps[i]);
          r := Visit(state, deps[i], trail + [resource]);
          if r.Circular? {
            return;
          }
        }
      }
      LeaveKeepsInvariant(g, state.visited, state.recursionStack, state.finished, resource);
      state.recursionStack := state.recursionStack - {resource};
      state.finished := state.finished + [resource];
      r := Resolved;
    }

    /** Throws exactly when the tracked dependencies have a cycle, naming a resource on one. */
    method ResolveDependencies() returns (r: Resolution)
      requires Valid()
      ensures r.Circular? <==> HasCycle(resourceDependencies)
      ensures r.Circular? ==> exists p :: IsCycle(resourceDependencies, p) && p[0] == r.resource
      ensures r.Resolved? ==> !HasCycle(DependsOnGraph())
    {
      var state := new ResolveState();
      ghost var g := resourceDependencies;
      for i := 0 to |trackedIds|
        invariant state.Valid(g) && state.recursionStack == {}
        invariant forall k | 0 <= k < i :: trackedIds[k] in state.visited
      {
        r := Visit(state, trackedIds[i], []);
        if r.Circular? {
          return;
        }
      }
      r := Resolved;
      OrderedGraphIsAcyclic(g, state.finished);
      TrackedAcyclicSuffices(DependsOnGraph(), g);
    }
  }

  /** Fewer edges, fewer cycles. */
  lemma TrackedAcyclicSuffices(current: Graph, tracked: Graph)
    requires forall a, b | Edge(current, a, b) :: Edge(tracked, a, b)
    requires !HasCycle(tracked)
    ensures !HasCycle(current)
  {
    if HasCycle(current) {
      var p :| IsCycle(current, p);
      assert forall i | 0 <= i < |p| - 1 :: Edge(current, p[i], p[i + 1]);
      assert IsCycle(tracked, p);
    }
  }

  /** One call of `addResource`. */
  datatype Call = Call(logicalId: string, resourceType: string, properties: Json, options: Options)

  /** Some call gave `a` a dependency on `b`. */
  ghost predicate Requested(calls: seq<Call>, a: Name, b: Name) {
    exists i | 0 <= i < |calls| :: calls[i].logicalId == a && b in Listed(calls[i].options.dependsOn)
  }

  /** `g` has the dependencies requested by the calls so far, over the whole run. */
  ghost predicate TracksRequests(g: Graph, calls: seq<Call>) {
    forall x, y :: Edge(g, x, y) <==> Requested(calls, x, y)
  }

  lemma AnotherRequest(before: Graph, after: Graph, calls: seq<Call>, c: Call)
    requires TracksRequests(before, calls)
    requires AddsEdges(before, after, c.logicalId, Listed(c.options.dependsOn))
    ensures TracksRequests(after, calls + [c])
  {
    var more := calls + [c];
    forall x, y
      ensures Requested(more, x, y) <==>
        Requested(calls, x, y) || (x == c.logicalId && y in Listed(c.options.dependsOn))
    {
      assert more[|calls|] == c;
      if Requested(calls, x, y) {
        var i :| 0 <= i < |calls| && calls[i].logicalId == x && y in Listed(calls[i].options.dependsOn);
        assert more[i] == calls[i];
      }
    }
  }

  /** No later call has the id of call `i`. */
  ghost predicate IsLast(calls: seq<Call>, i: nat)
    requires i < |calls|
  {
    forall k | i < k < |calls| :: calls[k].logicalId != calls[i].logicalId
  }

  /** The last call for `a` gave it a dependency on `b`. */
  ghost predicate RequestedLast(calls: seq<Call>, a: Name, b: Name) {
    exists i | 0 <= i < |calls| && IsLast(calls, i) ::
      calls[i].logicalId == a && b in Listed(calls[i].options.dependsOn)
  }

  /** No call for an id has a dependency that the last call for it lacks. */
  ghost predicate NothingStale(calls: seq<Call>) {
    forall i, j | 0 <= i < j < |calls| && IsLast(calls, j) && calls[i].logicalId == calls[j].logicalId ::
      forall d | d in Listed(calls[i].options.dependsOn) :: d in Listed(calls[j].options.dependsOn)
  }

  /** `g` has the dependencies of the last call for each id. */
  ghost predicate TracksLast(g: Graph, calls: seq<Call>) {
    forall x, y :: Edge(g, x, y) <==> RequestedLast(calls, x, y)
  }

  ghost predicate SameEdges(g: Graph, h: Graph) {
    forall x, y :: Edge(g, x, y) <==> Edge(h, x, y)
  }

  lemma {:induction false} LastForTheId(calls: seq<Call>, i: nat) returns (last: nat)
    requires i < |calls|
    ensures i <= last < |calls| && IsLast(calls, last) && calls[last].logicalId == calls[i].logicalId
    decreases |calls| - i
  {
    if IsLast(calls, i) {
      return i;
    }
    var k :| i < k < |calls| && calls[k].logicalId == calls[i].logicalId;
    last := LastForTheId(calls, k);
  }

  /** What was ever requested is what the last calls request exactly if nothing is stale. */
  lemma {:induction false} StaleExactly(tracked: Graph, current: Graph, calls: seq<Call>)
    requires TracksRequests(tracked, calls) && TracksLast(current, calls)
    ensures SameEdges(tracked, current) <==> NothingStale(calls)
  {
    hide IsLast, Edge, Listed;
    if NothingStale(calls) {
      forall x, y | Requested(calls, x, y)
        ensures RequestedLast(calls, x, y)
      {
        var i :| 0 <= i < |calls| && calls[i].logicalId == x && y in Listed(calls[i].options.dependsOn);
        var last := LastForTheId(calls, i);
      }
    }
    if SameEdges(tracked, current) {
      forall i, j, d | 0 <= i < j < |calls| && IsLast(calls, j) && calls[i].logicalId == calls[j].logicalId
                       && d in Listed(calls[i].options.dependsOn)
        ensures d in Listed(calls[j].options.dependsOn)
      {
        var a := calls[i].logicalId;
        assert Requested(calls, a, d);
        assert Edge(tracked, a, d);
        var k :| 0 <= k < |calls| && IsLast(calls, k) &&
                 calls[k].logicalId == a && d in Listed(calls[k].options.dependsOn);
        OneLast(calls, j, k);
      }
    }
  }

  lemma OneLast(calls: seq<Call>, j: nat, k: nat)
    requires j < |calls| && k < |calls| && IsLast(calls, j) && IsLast(calls, k)
    requires calls[j].logicalId == calls[k].logicalId
    ensures j == k
  {}

  /** One more call is the last one for its id. */
  lemma {:induction false} AnotherLast(
    resources: map<string, BuiltResource>, calls: seq<Call>, c: Call, r: BuiltResource)
    requires TracksLast(DependsOnRelation(resources), calls) && r.dependsOn == Kept(c.options.dependsOn)
    ensures TracksLast(DependsOnRelation(resources[c.logicalId := r]), calls + [c])
  {
    var before, after := DependsOnRelation(resources), DependsOnRelation(resources[c.logicalId := r]);
    forall x, y
      ensures Edge(after, x, y) <==> RequestedLast(calls + [c], x, y)
    {
      assert x != c.logicalId ==> (Edge(after, x, y) <==> Edge(before, x, y));
      assert Edge(before, x, y) <==> RequestedLast(calls, x, y);
      LastOfMore(calls, c, x, y);
      KeptLists(c.options.dependsOn);
    }
  }

  lemma KeptLists(d: DependsOn)
    ensures Listed(Kept(d)) == Listed(d)
  {}

  lemma {:induction false} LastOfMore(calls: seq<Call>, c: Call, x: Name, y: Name)
    ensures RequestedLast(calls + [c], x, y) <==>
      if x == c.logicalId then y in Listed(c.options.dependsOn) else RequestedLast(calls, x, y)
  {
    hide Listed;
    var more := calls + [c];
    assert more[|calls|] == c && IsLast(more, |calls|);
    forall i | 0 <= i < |calls|
      ensures more[i] == calls[i]
      ensures IsLast(more, i) <==> IsLast(calls, i) && calls[i].logicalId != c.logicalId
    {
      assert forall k | 0 <= k < |calls| :: more[k] == calls[k];
    }
  }

  /**
   `build`, with the calls its resource builders make: it throws exactly when the dependencies
   requested over the whole run form a cycle. A template it returns has no `DependsOn` cycle. The
   tracked dependencies are the `DependsOn` relation of the template exactly if no call for an id has
   a dependency that the last one lacks; then it throws only for a `DependsOn` cycle of the template.
   */
  method Build(calls: seq<Call>) returns (b: CloudFormationBuilder, r: Resolution)
    ensures TracksRequests(b.resourceDependencies, calls) && TracksLast(b.DependsOnGraph(), calls)
    ensures r.Circular? <==> HasCycle(b.resourceDependencies)
    ensures r.Resolved? ==> !HasCycle(b.DependsOnGraph())
    ensures SameEdges(b.resourceDependencies, b.DependsOnGraph()) <==> NothingStale(calls)
    ensures NothingStale(calls) ==> (r.Circular? <==> HasCycle(b.DependsOnGraph()))
  {
    hide TracksRequests, AddsEdges, ListsSets, HasCycle, TracksLast, DependsOnRelation, NothingStale;
    b := new CloudFormationBuilder();
    NothingRequested(b.resourceDependencies, b.resources);
    for i := 0 to |calls|
      invariant fresh(b) && b.Valid()
      invariant TracksRequests(b.resourceDependencies, calls[..i])
      invariant TracksLast(DependsOnRelation(b.resources), calls[..i])
    {
      var c := calls[i];
      ghost var tracked, resources := b.resourceDependencies, b.resources;
      b.AddResource(c.logicalId, c.resourceType, c.properties, c.options);
      AnotherRequest(tracked, b.resourceDependencies, calls[..i], c);
      AnotherLast(resources, calls[..i], c, b.resources[c.logicalId]);
      assert calls[..i + 1] == calls[..i] + [c];
    }
    assert calls[..|calls|] == calls;
    r := b.ResolveDependencies();
    StaleExactly(b.resourceDependencies, b.DependsOnGraph(), calls);
    if SameEdges(b.resourceDependencies, b.DependsOnGraph()) && !HasCycle(b.DependsOnGraph()) {
      TrackedAcyclicSuffices(b.resourceDependencies, b.DependsOnGraph());
    }
  }

  lemma NothingRequested(g: Graph, resources: map<string, BuiltResource>)
    requires g == map[] && resources == map[]
    ensures TracksRequests(g, []) && TracksLast(DependsOnRelation(resources), [])
  {}

  /**
   Adding a resource again does not forget what the first one depended on, so the check can reject a
   template whose `DependsOn` relation has no cycle.
   */
  method StaleDependencyIsKept() returns (b: CloudFormationBuilder, r: Resolution)
    ensures r.Circular? && !HasCycle(b.DependsOnGraph())
  {
    b := new CloudFormationBuilder();
    var none := Options(NoDependsOn, "", "", "");
    b.AddResource("A", "AWS::SQS::Queue", Null, none.(dependsOn := One("B")));
    assert "B" in Listed(One("B"));
    assert Edge(b.resourceDependencies, "A", "B");
    b.AddResource("A", "AWS::SQS::Queue", Null, none);
    b.AddResource("B", "AWS::SQS::Queue", Null, none.(dependsOn := One("A")));
    assert "A" in Listed(One("A"));
    assert IsCycle(b.resourceDependencies, ["A", "B", "A"]);
    OrderedGraphIsAcyclic(b.DependsOnGraph(), ["A", "B"]);
    r := b.ResolveDependencies();
  }
}
