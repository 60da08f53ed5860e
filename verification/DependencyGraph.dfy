/** The deployment order of resources: packages/core/src/dependency-graph.ts. */
module DependencyGraphs {
  import opened OrderedSets
  import opened Graphs
  import opened Templates
  import opened Wrappers

  datatype ResourceNode = ResourceNode(logicalId: string, resource: Resource, dependencies: seq<string>)

  datatype SortOutcome = Order(names: seq<string>) | Circular(name: string)

  datatype ValidateOutcome = AllExist | Missing(dependent: string, dependency: string)

  /** What a resource depends on, as the sorter reads it: `DependsOn`, and references inside `Properties`. */
  ghost predicate DependsOnName(r: Resource, name: string) {
    name in Listed(r.dependsOn) || Mentions(Properties(r), name, true)
  }

  function Properties(r: Resource): Json {
    if r.attributes.Obj? && "Properties" in r.attributes.fields then r.attributes.fields["Properties"]
    else Obj([], map[])
  }

  /** The names in `DependsOn`, and whatever is referred to anywhere inside `Properties`. */
  lemma DependsOnMeans(r: Resource, name: string)
    requires r.Valid()
    ensures DependsOnName(r, name) <==>
      || (r.dependsOn == One(name) && name != "") || (r.dependsOn.Many? && name in r.dependsOn.names)
      || ("Properties" in r.attributes.fields && RefersSomewhere(r.attributes.fields["Properties"], name, true))
  {
    hide Listed, Mentions, RefersSomewhere;
    ListedMeans(r.dependsOn, name);
    MentionsMean(Properties(r), name, true);
    NothingInside(name);
  }

  lemma NothingInside(name: string)
    ensures !RefersSomewhere(Obj([], map[]), name, true)
  {
    forall way
      ensures EndOf(Obj([], map[]), way) == if way == [] then Some(Obj([], map[])) else None
    {}
  }

  ghost predicate SortInvariant(g: Graph, sorted: seq<string>, visited: set<string>, visiting: set<string>) {
    && DependenciesFirst(g, sorted)
    && visited == Elements(sorted)
    && visited !! visiting
    && visited <= Names(g) && visiting <= Names(g)
  }

  lemma EnterKeepsInvariant(g: Graph, sorted: seq<string>, visited: set<string>, visiting: set<string>, n: string)
    requires SortInvariant(g, sorted, visited, visiting)
    requires n in Names(g) && n !in visited
    ensures SortInvariant(g, sorted, visited, visiting + {n})
  {}

  /** `n` may be listed once everything it points to has been. */
  lemma LeaveKeepsInvariant(g: Graph, sorted: seq<string>, visited: set<string>, visiting: set<string>, n: string)
    requires SortInvariant(g, sorted, visited, visiting) && n in visiting
    requires forall d | Edge(g, n, d) :: d in visited
    ensures SortInvariant(g, sorted + [n], visited + {n}, visiting - {n})
  {
    AppendKeepsOrder(g, sorted, {}, n);
    assert Elements(sorted + [n]) == Elements(sorted) + {n};
  }

  /** A thrown error is returned as `Circular`; the closure's three locals are the fields. */
  class SortState {
    var sorted: seq<string>
    var visited: set<string>
    var visiting: set<string>

    constructor ()
      ensures sorted == [] && visited == {} && visiting == {}
    {
      sorted, visited, visiting := [], {}, {};
    }

    ghost predicate Valid(g: Graph)
      reads this
    {
      SortInvariant(g, sorted, visited, visiting)
    }

    /** `trail` is the chain of calls in progress; its last name points at `next`. */
    ghost predicate OnTrail(g: Graph, trail: seq<string>, next: string)
      reads this
    {
      && NoDup(trail) && visiting == Elements(trail)
      && (trail != [] ==> IsPath(g, trail) && Edge(g, trail[|trail| - 1], next))
      && next in Names(g)
    }
  }

  class DependencyGraph {
    var keys: seq<string>
    var nodes: map<string, ResourceNode>

    constructor ()
      ensures Valid() && nodes == map[]
    {
      keys, nodes := [], map[];
    }

    ghost predicate Valid()
      reads this
    {
      && NoDup(keys) && (forall k :: k in keys <==> k in nodes)
      && forall k | k in nodes ::
           && nodes[k].logicalId == k
           && NoDup(nodes[k].dependencies)
           && forall x :: x in nodes[k].dependencies <==> DependsOnName(nodes[k].resource, x)
    }

    ghost function Edges(): Graph
      reads this
    {
      map k | k in nodes :: nodes[k].dependencies
    }

    method AddResource(logicalId: string, resource: Resource)
      requires Valid() && resource.Valid()
      modifies this
      ensures Valid()
      ensures keys == Add(old(keys), logicalId)
      ensures nodes.Keys == old(nodes).Keys + {logicalId}
      ensures nodes[logicalId].resource == resource
      ensures forall k | k in nodes && k != logicalId :: k in old(nodes) && nodes[k] == old(nodes)[k]
    {
      var dependencies := ExtractDependencies(resource);
      keys := Add(keys, logicalId);
      nodes := nodes[logicalId := ResourceNode(logicalId, resource, dependencies)];
    }

    static method ExtractDependencies(resource: Resource) returns (dependencies: seq<string>)
      requires resource.Valid()
      ensures NoDup(dependencies)
      ensures forall x :: x in dependencies <==> DependsOnName(resource, x)
    {
      dependencies := [];
      match resource.dependsOn {
        case NoDependsOn =>
        case One(name) =>
          if name != "" {
            dependencies := Add(dependencies, name);
          }
        case Many(names) =>
          for i := 0 to |names|
            invariant NoDup(dependencies)
            invariant forall x :: x in dependencies <==> x in names[..i]
          {
            dependencies := Add(dependencies, names[i]);
          }
      }
      dependencies := FindReferences(Properties(resource), dependencies);
    }

    /** The two tests at the top of an object: its own `Ref`, its own `Fn::GetAtt`. */
    static method AddOwnReferences(obj: Json, dependencies: seq<string>) returns (found: seq<string>)
      requires obj.Obj? && NoDup(dependencies)
      ensures NoDup(found)
      ensures forall x :: x in found <==> x in dependencies || PointsTo(obj, x, true)
    {
      found := dependencies;
      var fields := obj.fields;
      if "Ref" in fields && fields["Ref"].Str? {
        if !(PSEUDO_PREFIX <= fields["Ref"].s) {
          found := Add(found, fields["Ref"].s);
        }
      }
      if "Fn::GetAtt" in fields && fields["Fn::GetAtt"].Arr? {
        var att := fields["Fn::GetAtt"].items;
        if |att| > 0 && att[0].Str? {
          found := Add(found, att[0].s);
        }
      }
    }

    /** Adds every name referenced anywhere in `obj`. */
    static method FindReferences(obj: Json, dependencies: seq<string>) returns (found: seq<string>)
      requires obj.Valid() && NoDup(dependencies)
      ensures NoDup(found)
      ensures forall x :: x in found <==> x in dependencies || Mentions(obj, x, true)
      decreases obj
    {
      hide Mentions, PointsTo, NoDup;
      found := dependencies;
      match obj {
        case Arr(items) =>
          for i := 0 to |items|
            invariant NoDup(found)
            invariant forall x :: x in found <==>
              x in dependencies || exists k | 0 <= k < i :: Mentions(items[k], x, true)
          {
            found := FindReferences(items[i], found);
          }
          MentionsInArray(obj, true);
        case Obj(keys, fields) =>
          found := AddOwnReferences(obj, found);
          for i := 0 to |keys|
            invariant NoDup(found)
            invariant forall x :: x in found <==>
              || x in dependencies || PointsTo(obj, x, true)
              || exists k | k in keys[..i] :: Mentions(fields[k], x, true)
          {
            found := FindReferences(fields[keys[i]], found);
          }
          MentionsInObject(obj, true);
        case _ =>
          MentionsInLeaf(obj, true);
      }
    }

    /** The inner `visit`: the names below `nodeId`, then `nodeId`, unless a cycle shows up. */
    method Visit(state: SortState, nodeId: string, ghost trail: seq<string>) returns (thrown: SortOutcome)
      requires Valid() && state.Valid(Edges()) && state.OnTrail(Edges(), trail, nodeId)
      modifies state
      ensures thrown.Circular? ==> exists p :: IsCycle(Edges(), p) && p[0] == thrown.name
      ensures thrown.Order? ==>
        && state.Valid(Edges()) && state.visiting == old(state.visiting)
        && old(state.sorted) <= state.sorted && old(state.visited) + {nodeId} <= state.visited
      decreases Names(Edges()) - state.visiting
    {
      hide SortInvariant, IsPath, Names, CycleFrom;
      ghost var g := Edges();
      if nodeId in state.visited {
        return Order([]);
      }
      if nodeId in state.visiting {
        ClosingAPath(g, trail, nodeId);
        assert IsCycle(g, CycleFrom(trail, nodeId));
        return Circular(nodeId);
      }
      EnterKeepsInvariant(g, state.sorted, state.visited, state.visiting, nodeId);
      state.visiting := state.visiting + {nodeId};
      ExtendPath(g, trail, nodeId);
      if nodeId in nodes {
        var deps := nodes[nodeId].dependencies;
        for i := 0 to |deps|
          invariant state.Valid(g) && state.visiting == old(state.visiting) + {nodeId}
          invariant old(state.sorted) <= state.sorted
          invariant old(state.visited) <= state.visited
          invariant forall k | 0 <= k < i :: deps[k] in state.visited
        {
          EdgeJoinsNames(g, nodeId, deps[i]);
          thrown := Visit(state, deps[i], trail + [nodeId]);
          if thrown.Circular? {
            return;
          }
        }
      }
      LeaveKeepsInvariant(g, state.sorted, state.visited, state.visiting, nodeId);
      state.visiting := state.visiting - {nodeId};
      state.visited := state.visited + {nodeId};
      state.sorted := state.sorted + [nodeId];
      thrown := Order([]);
    }

    /**
     Fails exactly on a cyclic graph, naming a resource on a cycle. Otherwise lists every known or
     referenced name once, after everything it depends on.
     */
    method TopologicalSort() returns (r: SortOutcome)
      requires Valid()
      ensures r.Circular? <==> HasCycle(Edges())
      ensures r.Circular? ==> exists p :: IsCycle(Edges(), p) && p[0] == r.name
      ensures r.Order? ==> DependenciesFirst(Edges(), r.names) && Elements(r.names) == Names(Edges())
      ensures r.Order? && Closed(Edges()) ==> multiset(r.names) == multiset(keys)
    {
      var state := new SortState();
      ghost var g := Edges();
      for i := 0 to |keys|
        invariant state.Valid(g) && state.visiting == {}
        invariant forall k | 0 <= k < i :: keys[k] in state.visited
      {
        r := Visit(state, keys[i], []);
        if r.Circular? {
          return;
        }
      }
      r := Order(state.sorted);
      OrderedGraphIsAcyclic(g, state.sorted);
      OrderCoversNames(g, state.sorted);
      if Closed(g) {
        assert Names(g) <= g.Keys by { assert forall a, b | a in g && b in g[a] :: Edge(g, a, b); }
        assert forall x :: x in state.sorted <==> x in Elements(state.sorted);
        SameMembersArePermutations(state.sorted, keys);
      }
    }

    /** Passes exactly when every dependency is a resource; otherwise names an offending pair. */
    method Validate() returns (r: ValidateOutcome)
      requires Valid()
      ensures r.AllExist? <==> Closed(Edges())
      ensures r.Missing? ==> Edge(Edges(), r.dependent, r.dependency) && r.dependency !in nodes
    {
      for i := 0 to |keys|
        invariant forall k, d | 0 <= k < i && d in nodes[keys[k]].dependencies :: d in nodes
      {
        var deps := nodes[keys[i]].dependencies;
        for j := 0 to |deps|
          invariant forall k | 0 <= k < j :: deps[k] in nodes
        {
          if deps[j] !in nodes {
            r := Missing(keys[i], deps[j]);
            assert Edge(Edges(), keys[i], deps[j]);
            return;
          }
        }
      }
      r := AllExist;
    }

    /** The resources that depend on `logicalId`, in insertion order. */
    method GetDependents(logicalId: string) returns (dependents: seq<string>)
      requires Valid()
      ensures NoDup(dependents)
      ensures forall k :: k in dependents <==> k in nodes && DependsOnName(nodes[k].resource, logicalId)
    {
      dependents := [];
      for i := 0 to |keys|
        invariant NoDup(dependents)
        invariant forall k :: k in dependents <==> k in keys[..i] && DependsOnName(nodes[k].resource, logicalId)
      {
        if logicalId in nodes[keys[i]].dependencies {
          dependents := dependents + [keys[i]];
        }
      }
    }
  }

  /** `g` holds exactly the dependencies the sorter reads from the template. */
  ghost predicate IsSorterGraph(g: Graph, t: Template) {
    && g.Keys == t.resources.Keys
    && forall a, b :: Edge(g, a, b) <==> a in g && DependsOnName(t.resources[a], b)
  }

  /** A graph to which every resource of a template has been added holds what the sorter reads from it. */
  lemma GraphOfTemplate(d: DependencyGraph, t: Template)
    requires d.Valid() && d.nodes.Keys == t.resources.Keys
    requires forall k | k in d.nodes :: d.nodes[k].resource == t.resources[k]
    ensures IsSorterGraph(d.Edges(), t)
  {
    assert forall a, b :: Edge(d.Edges(), a, b) <==> a in d.nodes && b in d.nodes[a].dependencies;
  }

  lemma OrderCoversNames(g: Graph, order: seq<string>)
    requires DependenciesFirst(g, order) && Elements(order) <= Names(g)
    requires forall a | a in g :: a in order
    ensures Elements(order) == Names(g)
  {
    forall n | n in Names(g)
      ensures n in order
    {
      if n !in g {
        var a :| a in g && n in g[a];
        var i :| 0 <= i < |order| && order[i] == a;
        assert Edge(g, order[i], n);
      }
    }
  }
}
