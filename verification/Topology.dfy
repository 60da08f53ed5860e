/** What to keep bright when a node of the topology is focused: packages/ui/src/topology.ts. */
module Topology {
  import opened OrderedSets
  import opened Wrappers

  datatype Link = Link(source: string, target: string)

  datatype Node = Node(id: string, neighbours: seq<string>)

  datatype Geometry = Geometry(nodes: seq<Node>, links: seq<Link>)

  predicate HasLink(links: seq<Link>, a: string, b: string) {
    Link(a, b) in links
  }

  /** A walk along links, in their direction. */
  ghost predicate IsRoute(links: seq<Link>, p: seq<string>) {
    p != [] && forall i | 0 <= i < |p| - 1 :: HasLink(links, p[i], p[i + 1])
  }

  /** Some route leads from `n` to `id`. */
  ghost predicate Leads(links: seq<Link>, n: string, id: string) {
    exists p :: IsRoute(links, p) && p[0] == n && p[|p| - 1] == id
  }

  /** The stored neighbours of the first node with the id. */
  function NeighboursOf(nodes: seq<Node>, id: string): seq<string> {
    if nodes == [] then [] else if nodes[0].id == id then nodes[0].neighbours else NeighboursOf(nodes[1..], id)
  }

  /** `n` is a neighbour stored with the first node that has the id. */
  ghost predicate IsStoredNeighbour(nodes: seq<Node>, id: string, n: string) {
    exists i | 0 <= i < |nodes| ::
      nodes[i].id == id && n in nodes[i].neighbours && forall j | 0 <= j < i :: nodes[j].id != id
  }

  lemma {:induction false} NeighboursMean(nodes: seq<Node>, id: string, n: string)
    ensures n in NeighboursOf(nodes, id) <==> IsStoredNeighbour(nodes, id, n)
  {
    if nodes != [] && nodes[0].id != id {
      NeighboursMean(nodes[1..], id, n);
      assert forall i | 0 < i < |nodes| :: nodes[i] == nodes[1..][i - 1];
      if i :| 0 <= i < |nodes| - 1 && nodes[1..][i].id == id && n in nodes[1..][i].neighbours
              && forall j | 0 <= j < i :: nodes[1..][j].id != id {
        assert nodes[i + 1].id == id && forall j | 0 <= j < i + 1 :: nodes[j].id != id;
      }
      if i :| 0 <= i < |nodes| && nodes[i].id == id && n in nodes[i].neighbours
              && forall j | 0 <= j < i :: nodes[j].id != id {
        assert nodes[1..][i - 1].id == id && forall j | 0 <= j < i - 1 :: nodes[1..][j].id != id;
      }
    }
  }

  lemma AllNeighboursMean(nodes: seq<Node>, id: string)
    ensures forall n :: n in NeighboursOf(nodes, id) <==> IsStoredNeighbour(nodes, id, n)
  {
    forall n
      ensures n in NeighboursOf(nodes, id) <==> IsStoredNeighbour(nodes, id, n)
    {
      NeighboursMean(nodes, id, n);
    }
  }

  function Sources(links: seq<Link>): set<string> {
    set i | 0 <= i < |links| :: links[i].source
  }

  lemma LeadsFromParent(links: seq<Link>, parent: string, n: string, id: string)
    requires HasLink(links, parent, n) && Leads(links, n, id)
    ensures Leads(links, parent, id)
  {
    var p :| IsRoute(links, p) && p[0] == n && p[|p| - 1] == id;
    var q := [parent] + p;
    forall i | 0 <= i < |q| - 1
      ensures HasLink(links, q[i], q[i + 1])
    {
      assert i > 0 ==> HasLink(links, p[i - 1], p[i]);
    }
    assert IsRoute(links, q);
  }

  /** A set closed under going back along links has everything that leads into it. */
  lemma {:induction false} ClosedHasAllThatLead(links: seq<Link>, s: set<string>, p: seq<string>)
    requires forall l | l in links && l.target in s :: l.source in s
    requires IsRoute(links, p) && p[|p| - 1] in s
    ensures p[0] in s
  {
    if |p| > 1 {
      var rest := p[1..];
      assert HasLink(links, p[0], p[1]);
      forall i | 0 <= i < |rest| - 1
        ensures HasLink(links, rest[i], rest[i + 1])
      {
        assert HasLink(links, p[i + 1], p[i + 1 + 1]);
      }
      ClosedHasAllThatLead(links, s, rest);
    }
  }

  /** The lists of `incoming` are the sources of the links to each target. */
  ghost predicate IsIncoming(incoming: map<string, seq<string>>, links: seq<Link>) {
    forall a, b :: HasLink(links, a, b) <==> b in incoming && a in incoming[b]
  }

  lemma OneMoreIncoming(incoming: map<string, seq<string>>, links: seq<Link>, l: Link)
    requires IsIncoming(incoming, links)
    ensures var earlier := if l.target in incoming then incoming[l.target] else [];
      IsIncoming(incoming[l.target := earlier + [l.source]], links + [l])
  {
    assert forall a, b :: HasLink(links + [l], a, b) <==> HasLink(links, a, b) || l == Link(a, b);
  }

  /** For each target the sources of its links, in order. */
  method IncomingLinks(links: seq<Link>) returns (incoming: map<string, seq<string>>)
    ensures IsIncoming(incoming, links)
  {
    hide IsIncoming;
    incoming := map[];
    NothingIncoming();
    for i := 0 to |links|
      invariant IsIncoming(incoming, links[..i])
    {
      var link := links[i];
      ghost var before, earlier := incoming, if link.target in incoming then incoming[link.target] else [];
      OneMoreIncoming(incoming, links[..i], link);
      assert links[..i + 1] == links[..i] + [link];
      if link.target !in incoming {
        incoming := incoming[link.target := []];
      }
      incoming := incoming[link.target := incoming[link.target] + [link.source]];
      assert incoming == before[link.target := earlier + [link.source]];
    }
    assert links[..|links|] == links;
  }

  lemma NothingIncoming()
    ensures IsIncoming(map[], [])
  {}

  /** Everything seen leads to `id`, and what is not queued has had its parents looked at. */
  ghost predicate SearchInvariant(links: seq<Link>, id: string, seen: set<string>, queue: seq<string>) {
    && id in seen
    && (forall n | n in queue :: n in seen)
    && (forall n | n in seen :: Leads(links, n, id))
    && forall l | l in links && l.target in seen && l.target !in queue :: l.source in seen
  }

  /**
   The node, its stored neighbours, and every node some route of links leads from to it; also on
   cyclic links. Nothing is focused without an id.
   */
  method HighlightFor(geometry: Geometry, id: Option<string>) returns (r: Option<set<string>>)
    ensures r.None? <==> id == None || id == Some("")
    ensures r.Some? ==> forall n :: n in r.value <==>
      n == id.value || IsStoredNeighbour(geometry.nodes, id.value, n) || Leads(geometry.links, n, id.value)
  {
    if id == None || id == Some("") {
      return None;
    }
    var links, focus := geometry.links, id.value;
    var keep := {focus};
    var incoming := IncomingLinks(links);
    var neighbours := NeighboursOf(geometry.nodes, focus);
    AllNeighboursMean(geometry.nodes, focus);
    hide IsStoredNeighbour, NeighboursOf, SearchInvariant, Leads;
    for i := 0 to |neighbours|
      invariant forall n :: n in keep <==> n == focus || n in neighbours[..i]
    {
      keep := keep + {neighbours[i]};
    }
    ghost var near := keep;
    var seen, queue := {focus}, [focus];
    StartOfSearch(links, focus);
    while |queue| > 0
      invariant SearchInvariant(links, focus, seen, queue)
      invariant keep == near + seen
      invariant seen <= Sources(links) + {focus}
      decreases Sources(links) + {focus} - seen, |queue|
    {
      var current := queue[0];
      queue := queue[1..];
      var parents := if current in incoming then incoming[current] else [];
      keep, seen, queue := VisitParents(links, focus, current, parents, keep, seen, queue);
    }
    SeenIsAllThatLeads(links, focus, seen, queue);
    r := Some(keep);
  }

  lemma SeenIsAllThatLeads(links: seq<Link>, id: string, seen: set<string>, queue: seq<string>)
    requires SearchInvariant(links, id, seen, queue) && queue == []
    ensures forall n :: n in seen <==> Leads(links, n, id)
  {
    forall n
      ensures n in seen <==> Leads(links, n, id)
    {
      if Leads(links, n, id) {
        var p :| IsRoute(links, p) && p[0] == n && p[|p| - 1] == id;
        ClosedHasAllThatLead(links, seen, p);
      }
    }
  }

  lemma StartOfSearch(links: seq<Link>, id: string)
    ensures SearchInvariant(links, id, {id}, [id])
  {
    assert IsRoute(links, [id]);
  }

  /** Keeps every parent of the node taken from the queue, and queues those seen for the first time. */
  method VisitParents(
    links: seq<Link>, ghost id: string, ghost current: string, parents: seq<string>,
    keep: set<string>, seen: set<string>, queue: seq<string>)
    returns (keep': set<string>, seen': set<string>, queue': seq<string>)
    requires SearchInvariant(links, id, seen, [current] + queue)
    requires forall a :: a in parents <==> HasLink(links, a, current)
    ensures SearchInvariant(links, id, seen', queue')
    ensures seen <= seen' <= seen + Sources(links)
    ensures keep' == keep + Elements(parents) && seen' == seen + Elements(parents)
    ensures seen' == seen ==> queue' == queue
  {
    keep', seen', queue' := keep, seen, queue;
    for i := 0 to |parents|
      invariant keep' == keep + Elements(parents[..i]) && seen' == seen + Elements(parents[..i])
      invariant forall n :: n in queue' <==> n in queue || (n in seen' && n !in seen)
      invariant seen' == seen ==> queue' == queue
      invariant seen <= seen'
    {
      var parent := parents[i];
      assert parents[..i + 1] == parents[..i] + [parent];
      keep' := keep' + {parent};
      if parent in seen' {
        continue;
      }
      seen' := seen' + {parent};
      queue' := queue' + [parent];
    }
    assert parents[..|parents|] == parents;
    ParentsKeepInvariant(links, id, current, parents, seen, queue, seen', queue');
  }

  lemma ParentsKeepInvariant(
    links: seq<Link>, id: string, current: string, parents: seq<string>,
    seen: set<string>, queue: seq<string>, seen': set<string>, queue': seq<string>)
    requires SearchInvariant(links, id, seen, [current] + queue)
    requires forall a :: a in parents <==> HasLink(links, a, current)
    requires seen' == seen + Elements(parents)
    requires forall n :: n in queue' <==> n in queue || (n in seen' && n !in seen)
    ensures SearchInvariant(links, id, seen', queue') && seen' <= seen + Sources(links)
  {
    assert current in [current] + queue;
    forall n | n in seen'
      ensures Leads(links, n, id) && (n in seen || n in Sources(links))
    {
      if n !in seen {
        assert HasLink(links, n, current);
        LeadsFromParent(links, n, current, id);
        var i :| 0 <= i < |links| && links[i] == Link(n, current);
      }
    }
    forall l | l in links && l.target in seen' && l.target !in queue'
      ensures l.source in seen'
    {
      if l.target == current {
        assert HasLink(links, l.source, current);
      }
    }
  }
}
