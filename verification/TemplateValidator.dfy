/** Circular dependencies of a template: packages/core/src/template-validator.ts. */
module TemplateValidator {
  import opened OrderedSets
  import opened Graphs
  import opened Templates
  import D = DependencyGraphs

  /** What a resource depends on, as the validator reads it: `DependsOn`, and references in any attribute. */
  ghost predicate DependsOnName(r: Resource, name: string) {
    name in Listed(r.dependsOn) || Mentions(r.attributes, name, false)
  }

  /** The names in `DependsOn`, and whatever is referred to anywhere in the resource, an empty `Ref` not counted. */
  lemma DependsOnMeans(r: Resource, name: string)
    ensures DependsOnName(r, name) <==>
      || (r.dependsOn == One(name) && name != "") || (r.dependsOn.Many? && name in r.dependsOn.names)
      || RefersSomewhere(r.attributes, name, false)
  {
    hide Listed, Mentions, RefersSomewhere;
    ListedMeans(r.dependsOn, name);
    MentionsMean(r.attributes, name, false);
  }

  ghost predicate IsValidatorGraph(g: Graph, t: Template) {
    && g.Keys == t.resources.Keys
    && forall a, b :: Edge(g, a, b) <==> a in g && DependsOnName(t.resources[a], b)
  }

  /** The edge on which a reported cycle was noticed: its last one. */
  function Closing(c: seq<Name>): (Name, Name) {
    if |c| < 2 then ("", "") else (c[|c| - 2], c[|c| - 1])
  }

  function Closings(cycles: seq<seq<Name>>): set<(Name, Name)> {
    set i | 0 <= i < |cycles| :: Closing(cycles[i])
  }

  /** What the search keeps; `finished` lists the names whose call has returned, in that order. */
  ghost predicate SearchInvariant(
    g: Graph, cycles: seq<seq<Name>>, visited: set<Name>, stack: set<Name>, finished: seq<Name>)
  {
    && visited == Elements(finished) + stack
    && Elements(finished) !! stack
    && visited <= Names(g)
    && NoDup(finished) && DependenciesFirstExcept(g, finished, Closings(cycles))
    && (forall i | 0 <= i < |cycles| :: IsSimpleCycle(g, cycles[i]) && Closing(cycles[i]).0 in visited)
    && forall i, j | 0 <= i < j < |cycles| :: Closing(cycles[i]) != Closing(cycles[j])
  }

  /** `now` extends `before` by cycles noticed outside `seen`. */
  ghost predicate Extends(before: seq<seq<Name>>, now: seq<seq<Name>>, seen: set<Name>) {
    before <= now && forall i | |before| <= i < |now| :: Closing(now[i]).0 !in seen
  }

  /** The cycles noticed at `node` close on the names in `done`. */
  ghost predicate ClosedOn(cycles: seq<seq<Name>>, node: Name, done: seq<Name>) {
    forall i | 0 <= i < |cycles| && Closing(cycles[i]).0 == node :: Closing(cycles[i]).1 in done
  }

  /** One dependency of `node` has been dealt with, by a nested call or by a report. */
  lemma StepKeepsExtension(
    before: seq<seq<Name>>, now: seq<seq<Name>>, later: seq<seq<Name>>, seen: set<Name>, nowSeen: set<Name>,
    node: Name, done: seq<Name>, dep: Name)
    requires Extends(before, now, seen) && ClosedOn(now, node, done)
    requires seen + {node} <= nowSeen && node !in seen
    requires
      || later == now || Extends(now, later, nowSeen)
      || (later != [] && later[..|later| - 1] == now && Closing(later[|later| - 1]) == (node, dep))
    ensures Extends(before, later, seen) && ClosedOn(later, node, done + [dep])
    ensures Closings(now) <= Closings(later)
  {
    assert forall i | 0 <= i < |now| :: later[i] == now[i] && Closing(later[i]) in Closings(later);
  }

  lemma EmptySearch(g: Graph)
    ensures SearchInvariant(g, [], {}, {}, [])
    ensures g.Keys <= Names(g)
  {}

  /** What holds once every name has been visited and no call is in progress. */
  lemma SearchResult(g: Graph, cycles: seq<seq<Name>>, visited: set<Name>, finished: seq<Name>)
    requires SearchInvariant(g, cycles, visited, {}, finished)
    requires g.Keys <= visited
    ensures forall i | 0 <= i < |cycles| :: IsSimpleCycle(g, cycles[i])
    ensures forall i, j | 0 <= i < j < |cycles| :: Closing(cycles[i]) != Closing(cycles[j])
    ensures forall p | IsCycle(g, p) :: UsesEdge(p, Closings(cycles))
    ensures cycles == [] <==> !HasCycle(g)
  {
    forall p | IsCycle(g, p)
      ensures UsesEdge(p, Closings(cycles))
    {
      CycleUsesBackEdge(g, finished, Closings(cycles), p);
    }
    if cycles != [] {
      assert IsCycle(g, cycles[0]);
    }
  }

  lemma CycleIsNew(cycles: seq<seq<Name>>, c: seq<Name>, node: Name, deps: seq<Name>, i: nat)
    requires i < |deps| && NoDup(deps) && ClosedOn(cycles, node, deps[..i])
    requires Closing(c) == (node, deps[i])
    ensures forall k | 0 <= k < |cycles| :: Closing(cycles[k]) != Closing(c)
  {}

  lemma EnterKeepsInvariant(
    g: Graph, cycles: seq<seq<Name>>, visited: set<Name>, stack: set<Name>, finished: seq<Name>, node: Name)
    requires SearchInvariant(g, cycles, visited, stack, finished)
    requires node in Names(g) && node !in visited
    ensures SearchInvariant(g, cycles, visited + {node}, stack + {node}, finished)
    ensures Extends(cycles, cycles, visited) && ClosedOn(cycles, node, [])
    ensures stack <= visited && visited + {node} <= Names(g)
  {}

  /** A visited name is either still being explored or finished. */
  lemma VisitedOffStackIsFinished(
    g: Graph, cycles: seq<seq<Name>>, visited: set<Name>, stack: set<Name>, finished: seq<Name>)
    requires SearchInvariant(g, cycles, visited, stack, finished)
    ensures visited <= Names(g)
    ensures forall n | n in visited && n !in stack :: n in finished
  {}

  lemma ReportKeepsInvariant(
    g: Graph, cycles: seq<seq<Name>>, visited: set<Name>, stack: set<Name>, finished: seq<Name>, c: seq<Name>)
    requires SearchInvariant(g, cycles, visited, stack, finished)
    requires IsSimpleCycle(g, c) && Closing(c).0 in visited
    requires forall i | 0 <= i < |cycles| :: Closing(cycles[i]) != Closing(c)
    ensures SearchInvariant(g, cycles + [c], visited, stack, finished)
    ensures Closings(cycles + [c]) == Closings(cycles) + {Closing(c)}
  {
    var more := cycles + [c];
    assert forall i | 0 <= i < |cycles| :: more[i] == cycles[i] && Closing(more[i]) in Closings(cycles);
    assert more[|cycles|] == c;
  }

  lemma LeaveKeepsInvariant(
    g: Graph, cycles: seq<seq<Name>>, visited: set<Name>, stack: set<Name>, finished: seq<Name>, node: Name)
    requires SearchInvariant(g, cycles, visited, stack, finished) && node in stack
    requires forall d | Edge(g, node, d) :: d in finished || (node, d) in Closings(cycles)
    ensures SearchInvariant(g, cycles, visited, stack - {node}, finished + [node])
  {
    AppendKeepsOrder(g, finished, Closings(cycles), node);
    assert Elements(finished + [node]) == Elements(finished) + {node};
  }

  /** The locals the inner `dfs` shares, with the invariant's ghost list beside them. */
  class SearchState {
    var cycles: seq<seq<Name>>
    var visited: set<Name>
    var recursionStack: set<Name>
    ghost var finished: seq<Name>

    constructor ()
      ensures cycles == [] && visited == {} && recursionStack == {} && finished == []
    {
      cycles, visited, recursionStack, finished := [], {}, {}, [];
    }

    ghost predicate Valid(g: Graph)
      reads this
    {
      SearchInvariant(g, cycles, visited, recursionStack, finished)
    }
  }

  method ExtractDependencies(obj: Json) returns (deps: seq<string>)
    requires obj.Valid()
    ensures NoDup(deps)
    ensures forall x :: x in deps <==> Mentions(obj, x, false)
  {
    deps := Traverse(obj, []);
  }

  /** The two tests at the top of an object: its own `Ref`, its own `Fn::GetAtt`. */
  method AddOwnReferences(value: Json, deps: seq<string>) returns (found: seq<string>)
    requires value.Obj? && NoDup(deps)
    ensures NoDup(found)
    ensures forall x :: x in found <==> x in deps || PointsTo(value, x, false)
  {
    found := deps;
    var fields := value.fields;
    if "Ref" in fields && fields["Ref"].Str? && fields["Ref"].s != "" {
      if !(PSEUDO_PREFIX <= fields["Ref"].s) {
        found := Add(found, fields["Ref"].s);
      }
    }
    if "Fn::GetAtt" in fields && fields["Fn::GetAtt"].Arr? {
      var att := fields["Fn::GetAtt"].items;
      if |att| > 0 && att[0].Str? {
        found := Add(found, att[0].s);
      }
    }
  }

  method Traverse(value: Json, deps: seq<string>) returns (found: seq<string>)
    requires value.Valid() && NoDup(deps)
    ensures NoDup(found)
    ensures forall x :: x in found <==> x in deps || Mentions(value, x, false)
    decreases value
  {
    hide Mentions, PointsTo, NoDup;
    found := deps;
    match value {
      case Arr(items) =>
        for i := 0 to |items|
          invariant NoDup(found)
          invariant forall x :: x in found <==> x in deps || exists k | 0 <= k < i :: Mentions(items[k], x, false)
        {
          found := Traverse(items[i], found);
        }
        MentionsInArray(value, false);
      case Obj(keys, fields) =>
        found := AddOwnReferences(value, found);
        for i := 0 to |keys|
          invariant NoDup(found)
          invariant forall x :: x in found <==>
            || x in deps || PointsTo(value, x, false)
            || exists k | k in keys[..i] :: Mentions(fields[k], x, false)
        {
          found := Traverse(fields[keys[i]], found);
        }
        MentionsInObject(value, false);
      case _ =>
        MentionsInLeaf(value, false);
    }
  }

  method BuildGraph(template: Template) returns (g: Graph)
    requires template.Valid()
    ensures g.Keys == template.resources.Keys && ListsSets(g)
    ensures IsValidatorGraph(g, template)
  {
    g := map[];
    for i := 0 to |template.ids|
      invariant g.Keys == Elements(template.ids[..i])
      invariant ListsSets(g)
      invariant forall a, b | a in g :: b in g[a] <==> DependsOnName(template.resources[a], b)
    {
      hide DependsOnName, NoDup;
      assert template.ids[..i + 1] == template.ids[..i] + [template.ids[i]];
      var deps := DependenciesOf(template.resources[template.ids[i]]);
      g := g[template.ids[i] := deps];
    }
  }

  /** The set `deps` of one resource. */
  method DependenciesOf(resource: Resource) returns (deps: seq<string>)
    requires resource.Valid()
    ensures NoDup(deps) && forall x :: x in deps <==> DependsOnName(resource, x)
  {
    hide NoDup, Mentions, Listed;
    deps := [];
    NothingTwice();
    var listed := Listed(resource.dependsOn);
    for j := 0 to |listed|
      invariant NoDup(deps)
      invariant forall x :: x in deps <==> x in listed[..j]
    {
      deps := Add(deps, listed[j]);
    }
    var refDeps := ExtractDependencies(resource.attributes);
    for j := 0 to |refDeps|
      invariant NoDup(deps)
      invariant forall x :: x in deps <==> x in listed || x in refDeps[..j]
    {
      deps := Add(deps, refDeps[j]);
    }
  }

  lemma NothingTwice()
    ensures NoDup<string>([])
  {}

  /** The inner `dfs`; `path` leads from a start name to the caller. */
  method Dfs(g: Graph, state: SearchState, node: string, path: seq<string>)
    requires ListsSets(g)
    requires state.Valid(g)
    requires node in Names(g) && node !in state.visited
    requires NoDup(path) && Elements(path) == state.recursionStack
    requires path != [] ==> IsPath(g, path) && Edge(g, path[|path| - 1], node)
    modifies state
    ensures state.Valid(g)
    ensures state.recursionStack == old(state.recursionStack)
    ensures old(state.visited) + {node} <= state.visited
    ensures old(state.finished) <= state.finished && node in state.finished
    ensures Extends(old(state.cycles), state.cycles, old(state.visited))
    decreases Names(g) - state.visited
  {
    hide SearchInvariant, IsSimpleCycle, IsPath, Closings, Names, Extends, ClosedOn, CycleFrom;
    ghost var before, seen := state.cycles, state.visited;
    EnterKeepsInvariant(g, state.cycles, state.visited, state.recursionStack, state.finished, node);
    state.visited := state.visited + {node};
    state.recursionStack := state.recursionStack + {node};
    var path' := path + [node];
    ExtendPath(g, path, node);
    var deps := if node in g then g[node] else [];
    for i := 0 to |deps|
      invariant state.Valid(g) && state.recursionStack == Elements(path') && seen + {node} <= state.visited
      invariant old(state.finished) <= state.finished
      invariant Extends(before, state.cycles, seen) && ClosedOn(state.cycles, node, deps[..i])
      invariant forall k | 0 <= k < i :: deps[k] in state.finished || (node, deps[k]) in Closings(state.cycles)
    {
      var dep := deps[i];
      ghost var now, nowSeen := state.cycles, state.visited;
      EdgeJoinsNames(g, node, dep);
      VisitedOffStackIsFinished(g, state.cycles, state.visited, state.recursionStack, state.finished);
      if dep !in state.visited {
        Dfs(g, state, dep, path');
      } else if dep in state.recursionStack {
        var cycle := CycleFrom(path', dep);
        ClosingAPath(g, path', dep);
        CycleIsNew(state.cycles, cycle, node, deps, i);
        ReportKeepsInvariant(g, state.cycles, state.visited, state.recursionStack, state.finished, cycle);
        state.cycles := state.cycles + [cycle];
        assert state.cycles[..|state.cycles| - 1] == now;
      }
      StepKeepsExtension(before, now, state.cycles, seen, nowSeen, node, deps[..i], dep);
      assert deps[..i + 1] == deps[..i] + [dep];
    }
    LeaveKeepsInvariant(g, state.cycles, state.visited, state.recursionStack, state.finished, node);
    state.recursionStack := state.recursionStack - {node};
    state.finished := state.finished + [node];
  }

  /**
   Reports simple cycles of real dependencies, no closing edge twice, such that every cycle of the
   graph runs through a reported closing edge; so the report is empty exactly on an acyclic graph.
   */
  method DetectCircularDependencies(template: Template) returns (cycles: seq<seq<string>>, ghost g: Graph)
    requires template.Valid()
    ensures IsValidatorGraph(g, template)
    ensures forall i | 0 <= i < |cycles| :: IsSimpleCycle(g, cycles[i])
    ensures cycles == [] <==> !HasCycle(g)
    ensures forall p | IsCycle(g, p) :: UsesEdge(p, Closings(cycles))
    ensures forall i, j | 0 <= i < j < |cycles| :: Closing(cycles[i]) != Closing(cycles[j])
  {
    hide SearchInvariant, IsSimpleCycle, IsPath, Closings, IsValidatorGraph, Mentions, ListsSets, Names;
    var graph := BuildGraph(template);
    g := graph;
    var state := new SearchState();
    EmptySearch(g);
    for i := 0 to |template.ids|
      invariant state.Valid(g) && state.recursionStack == {}
      invariant forall k | 0 <= k < i :: template.ids[k] in state.visited
    {
      if template.ids[i] !in state.visited {
        Dfs(graph, state, template.ids[i], []);
      }
    }
    cycles := state.cycles;
    SearchResult(g, state.cycles, state.visited, state.finished);
  }

  /** Every dependency the sorter reads, the validator reads too, except a `Ref` to the empty name. */
  lemma SorterReadsNoMore(r: Resource, x: string)
    requires r.Valid() && D.DependsOnName(r, x) && x != ""
    ensures DependsOnName(r, x)
  {
    if x !in Listed(r.dependsOn) {
      var inner :| Contains(D.Properties(r), inner) && PointsTo(inner, x, true);
      if "Properties" in r.attributes.fields {
        assert Contains(r.attributes, inner);
        assert PointsTo(inner, x, false);
      }
    }
  }

  /** On a template the validator finds free of cycles, a cycle of the sorter passes through the empty name. */
  lemma SorterCyclePassesBlank(t: Template, gv: Graph, gs: Graph, p: seq<string>)
    requires t.Valid() && IsValidatorGraph(gv, t) && D.IsSorterGraph(gs, t)
    requires !HasCycle(gv) && IsCycle(gs, p)
    ensures "" in p
  {
    if "" !in p {
      forall i | 0 <= i < |p| - 1
        ensures Edge(gv, p[i], p[i + 1])
      {
        assert Edge(gs, p[i], p[i + 1]);
        SorterReadsNoMore(t.resources[p[i]], p[i + 1]);
      }
      assert IsCycle(gv, p);
    }
  }

  /**
   A template the validator finds free of cycles can be sorted, unless it has a resource with an
   empty logical id.
   */
  lemma ValidatedTemplatesSort(t: Template, gv: Graph, gs: Graph)
    requires t.Valid() && IsValidatorGraph(gv, t) && D.IsSorterGraph(gs, t)
    requires !HasCycle(gv)
    ensures HasCycle(gs) ==> "" in t.resources
  {
    if HasCycle(gs) {
      var p :| IsCycle(gs, p);
      CycleNamesHaveEntries(gs, p);
      SorterCyclePassesBlank(t, gv, gs, p);
    }
  }

  /** From the resource with the empty id the sorter's dependencies lead back to it. */
  ghost predicate BlankComesBack(gs: Graph) {
    exists p :: ComesBack(gs, "", p)
  }

  /**
   With an empty id around it depends on whether the dependencies of that resource lead back to it,
   as only a blank reference lets the validator overlook.
   */
  lemma SorterFailsAtBlankOnly(t: Template, gv: Graph, gs: Graph)
    requires t.Valid() && IsValidatorGraph(gv, t) && D.IsSorterGraph(gs, t) && !HasCycle(gv)
    ensures HasCycle(gs) <==> BlankComesBack(gs)
    ensures BlankComesBack(gs) ==> exists a | a in t.resources :: Mentions(D.Properties(t.resources[a]), "", true)
  {
    hide IsPath, IsCycle, IsValidatorGraph, D.IsSorterGraph, Mentions;
    if HasCycle(gs) {
      var p :| IsCycle(gs, p);
      SorterCyclePassesBlank(t, gv, gs, p);
      var q := CycleFromAnyName(gs, p, "");
    }
    if BlankComesBack(gs) {
      var p :| ComesBack(gs, "", p);
      ComingBackIsACycle(gs, "", p);
      SomeBlankReference(t, gv, gs, p + [""]);
    }
  }

  lemma SeenByTheValidator(t: Template, gv: Graph, gs: Graph, p: seq<Name>)
    requires t.Valid() && IsValidatorGraph(gv, t) && D.IsSorterGraph(gs, t) && IsCycle(gs, p)
    requires forall a | a in t.resources :: !Mentions(D.Properties(t.resources[a]), "", true)
    ensures IsCycle(gv, p)
  {
    hide Mentions;
    forall i | 0 <= i < |p| - 1
      ensures Edge(gv, p[i], p[i + 1])
    {
      assert Edge(gs, p[i], p[i + 1]);
      if p[i + 1] != "" {
        SorterReadsNoMore(t.resources[p[i]], p[i + 1]);
      }
    }
  }

  /** A cycle the validator does not see goes through a reference to the empty name. */
  lemma SomeBlankReference(t: Template, gv: Graph, gs: Graph, p: seq<Name>)
    requires t.Valid() && IsValidatorGraph(gv, t) && D.IsSorterGraph(gs, t) && !HasCycle(gv) && IsCycle(gs, p)
    ensures exists a | a in t.resources :: Mentions(D.Properties(t.resources[a]), "", true)
  {
    hide Mentions, IsCycle, IsValidatorGraph, D.IsSorterGraph;
    if forall a | a in t.resources :: !Mentions(D.Properties(t.resources[a]), "", true) {
      SeenByTheValidator(t, gv, gs, p);
    }
  }

  /** The resources of the ids so far are in the graph. */
  ghost predicate Holds(nodes: map<string, D.ResourceNode>, ids: seq<string>, resources: map<string, Resource>) {
    nodes.Keys == Elements(ids) && forall k | k in nodes :: k in resources && nodes[k].resource == resources[k]
  }

  lemma HoldsOneMore(
    before: map<string, D.ResourceNode>, after: map<string, D.ResourceNode>, ids: seq<string>,
    resources: map<string, Resource>, id: string)
    requires Holds(before, ids, resources) && id in resources
    requires after.Keys == before.Keys + {id} && after[id].resource == resources[id]
    requires forall k | k in after && k != id :: k in before && after[k] == before[k]
    ensures Holds(after, ids + [id], resources)
  {
    assert Elements(ids + [id]) == Elements(ids) + {id};
  }

  lemma HoldsAll(nodes: map<string, D.ResourceNode>, ids: seq<string>, resources: map<string, Resource>)
    requires Holds(nodes, ids, resources) && forall k :: k in ids <==> k in resources
    ensures nodes.Keys == resources.Keys && forall k | k in nodes :: nodes[k].resource == resources[k]
  {}

  method GraphOf(template: Template) returns (graph: D.DependencyGraph)
    requires template.Valid()
    ensures fresh(graph) && graph.Valid() && D.IsSorterGraph(graph.Edges(), template)
  {
    hide D.IsSorterGraph, D.DependsOnName, D.DependencyGraph.Valid, Holds, NoDup, Json.Valid, Resource.Valid;
    hide D.DependencyGraph.Edges;
    graph := new D.DependencyGraph();
    HoldsNone(template.resources);
    for i := 0 to |template.ids|
      invariant fresh(graph) && graph.Valid() && Holds(graph.nodes, template.ids[..i], template.resources)
    {
      var id := template.ids[i];
      ghost var before := graph.nodes;
      graph.AddResource(id, template.resources[id]);
      HoldsOneMore(before, graph.nodes, template.ids[..i], template.resources, id);
      assert template.ids[..i + 1] == template.ids[..i] + [id];
    }
    assert template.ids[..|template.ids|] == template.ids;
    HoldsAll(graph.nodes, template.ids, template.resources);
    D.GraphOfTemplate(graph, template);
  }

  lemma HoldsNone(resources: map<string, Resource>)
    ensures Holds(map[], [], resources)
  {}

  /**
   The two checks one after the other: when the validator reports nothing, the sorter succeeds, unless
   a resource with an empty id leads back to itself.
   */
  method ValidateThenSort(template: Template) returns (cycles: seq<seq<string>>, r: D.SortOutcome, ghost gs: Graph)
    requires template.Valid()
    ensures D.IsSorterGraph(gs, template)
    ensures cycles == [] && "" !in template.resources ==> r.Order?
    ensures cycles == [] ==> (r.Circular? <==> BlankComesBack(gs))
    ensures r.Order? ==> DependenciesFirst(gs, r.names) && Elements(r.names) == Names(gs)
    ensures r.Circular? ==> exists p :: IsCycle(gs, p) && p[0] == r.name
  {
    hide IsPath, IsCycle, IsValidatorGraph, D.IsSorterGraph, Mentions, Contains, DependenciesFirst, BlankComesBack;
    ghost var gv;
    cycles, gv := DetectCircularDependencies(template);
    var graph := GraphOf(template);
    gs := graph.Edges();
    r := graph.TopologicalSort();
    if cycles == [] {
      SorterFailsAtBlankOnly(template, gv, gs);
      ValidatedTemplatesSort(template, gv, gs);
    }
  }

  /** A resource whose one attribute is a `Ref`, and what either reader takes it to depend on. */
  lemma OneRefResource(key: string, name: string) returns (r: Resource)
    requires (key == "Properties" || key == "Metadata") && !(PSEUDO_PREFIX <= name)
    ensures r.Valid()
    ensures forall x :: DependsOnName(r, x) <==> x == name != ""
    ensures forall x :: D.DependsOnName(r, x) <==> key == "Properties" && x == name
  {
    hide Mentions, Contains;
    var ref := Obj(["Ref"], map["Ref" := Str(name)]);
    r := Resource(NoDependsOn, Obj([key], map[key := ref]));
    assert ref.Valid();
    assert r.attributes.Valid() by { assert r.attributes.fields[key] == ref; }
    OneReference(ref, name);
    OneAttribute(r.attributes, key, ref);
    NothingMentioned();
  }

  /** A resource called "" that refers to itself: the validator sees no dependency, the sorter a cycle. */
  lemma BlankRefSeparates() returns (t: Template, gv: Graph, gs: Graph)
    ensures t.Valid() && IsValidatorGraph(gv, t) && D.IsSorterGraph(gs, t)
    ensures !HasCycle(gv) && HasCycle(gs)
  {
    hide DependsOnName, D.DependsOnName;
    var r := OneRefResource("Properties", "");
    t, gv, gs := Template([""], map["" := r]), map["" := []], map["" := [""]];
    OrderedGraphIsAcyclic(gv, [""]);
    assert IsCycle(gs, ["", ""]) by { assert Edge(gs, "", ""); }
  }

  /** The converse fails: the sorter reads `Properties` only, the validator every attribute. */
  lemma MetadataRefSeparates() returns (t: Template, gv: Graph, gs: Graph)
    ensures t.Valid() && "" !in t.resources && IsValidatorGraph(gv, t) && D.IsSorterGraph(gs, t)
    ensures HasCycle(gv) && !HasCycle(gs)
  {
    hide DependsOnName, D.DependsOnName;
    assert !(PSEUDO_PREFIX <= "Queue") by { assert "Queue"[0] != PSEUDO_PREFIX[0]; }
    var r := OneRefResource("Metadata", "Queue");
    t, gv, gs := Template(["Queue"], map["Queue" := r]), map["Queue" := ["Queue"]], map["Queue" := []];
    OrderedGraphIsAcyclic(gs, ["Queue"]);
    assert IsCycle(gv, ["Queue", "Queue"]) by { assert Edge(gv, "Queue", "Queue"); }
  }

  /** An object that is nothing but a `Ref` mentions the name it refers to, and no other. */
  lemma OneReference(ref: Json, name: string)
    requires ref == Obj(["Ref"], map["Ref" := Str(name)]) && !(PSEUDO_PREFIX <= name)
    ensures forall x :: Mentions(ref, x, true) <==> x == name
    ensures forall x :: Mentions(ref, x, false) <==> x == name != ""
  {
    assert ref.Valid();
    forall x, blankRefs: bool
      ensures Mentions(ref, x, blankRefs) <==> PointsTo(ref, x, blankRefs)
    {
      MentionsInObject(ref, blankRefs);
      assert forall inner :: Contains(Str(name), inner) ==> inner == Str(name);
    }
  }

  lemma NothingMentioned()
    ensures forall x :: !Mentions(Obj([], map[]), x, true)
  {
    MentionsInObject(Obj([], map[]), true);
  }

  lemma OneAttribute(attributes: Json, key: string, value: Json)
    requires attributes == Obj([key], map[key := value]) && attributes.Valid()
    requires key != "Ref" && key != "Fn::GetAtt"
    ensures forall x :: Mentions(attributes, x, false) <==> Mentions(value, x, false)
  {
    MentionsInObject(attributes, false);
    assert key in attributes.keys && attributes.fields[key] == value;
    assert forall k | k in attributes.keys :: attributes.fields[k] == value;
  }
}
