/**
 Directed graphs over names, as the three cycle checks of the repository see them: each known name
 has an ordered list of the names it points to; a name that is only pointed to has no entry.
 */
module Graphs {
  import opened OrderedSets

  type Name = string
  type Graph = map<Name, seq<Name>>

  predicate Edge(g: Graph, a: Name, b: Name) {
    a in g && b in g[a]
  }

  /** Every name that has an entry or is pointed to. */
  function Names(g: Graph): set<Name> {
    g.Keys + set a, b | a in g && b in g[a] :: b
  }

  ghost predicate IsPath(g: Graph, p: seq<Name>) {
    |p| > 0 && forall i | 0 <= i < |p| - 1 :: Edge(g, p[i], p[i + 1])
  }

  ghost predicate IsCycle(g: Graph, p: seq<Name>) {
    IsPath(g, p) && |p| >= 2 && p[0] == p[|p| - 1]
  }

  /** A cycle that repeats no name but its first, which closes it. */
  ghost predicate IsSimpleCycle(g: Graph, p: seq<Name>) {
    IsCycle(g, p) && NoDup(p[..|p| - 1])
  }

  ghost predicate HasCycle(g: Graph) {
    exists p :: IsCycle(g, p)
  }

  /** Every edge points at a known name. */
  ghost predicate Closed(g: Graph) {
    forall a, b | Edge(g, a, b) :: b in g
  }

  /** `order` lists names once, each after everything it points to. */
  ghost predicate DependenciesFirst(g: Graph, order: seq<Name>) {
    NoDup(order) && DependenciesFirstExcept(g, order, {})
  }

  /** As above, but the edges in `back` may point anywhere. */
  ghost predicate DependenciesFirstExcept(g: Graph, order: seq<Name>, back: set<(Name, Name)>) {
    forall i, d | 0 <= i < |order| && Edge(g, order[i], d) :: d in order[..i] || (order[i], d) in back
  }

  ghost predicate UsesEdge(p: seq<Name>, edges: set<(Name, Name)>) {
    exists i | 0 <= i < |p| - 1 :: (p[i], p[i + 1]) in edges
  }

  /** A closed walk cannot descend for ever, so somewhere it takes one of the excepted edges. */
  lemma CycleUsesBackEdge(g: Graph, order: seq<Name>, back: set<(Name, Name)>, p: seq<Name>)
    requires DependenciesFirstExcept(g, order, back)
    requires forall a | a in g :: a in order
    requires IsCycle(g, p)
    ensures UsesEdge(p, back)
  {
    if !UsesEdge(p, back) {
      assert Edge(g, p[0], p[1]);
      var j := |order|;
      var k := 0;
      // p[k] is in order[..j], and j shrinks; go round the cycle often enough to run out
      while true
        invariant 0 <= k < |p| - 1
        invariant 0 <= j <= |order|
        invariant p[k] in order[..j]
        decreases j
      {
        var i :| 0 <= i < j && order[i] == p[k];
        assert Edge(g, order[i], p[k + 1]);
        assert p[k + 1] in order[..i];
        j := i;
        k := if k + 1 == |p| - 1 then 0 else k + 1;
      }
    }
  }

  lemma OrderedGraphIsAcyclic(g: Graph, order: seq<Name>)
    requires DependenciesFirst(g, order)
    requires forall a | a in g :: a in order
    ensures !HasCycle(g)
  {
    if HasCycle(g) {
      var p :| IsCycle(g, p);
      CycleUsesBackEdge(g, order, {}, p);
    }
  }

  lemma AppendKeepsOrder(g: Graph, order: seq<Name>, back: set<(Name, Name)>, n: Name)
    requires NoDup(order) && DependenciesFirstExcept(g, order, back) && n !in order
    requires forall d | Edge(g, n, d) :: d in order || (n, d) in back
    ensures NoDup(order + [n]) && DependenciesFirstExcept(g, order + [n], back)
  {
    var longer := order + [n];
    forall i, d | 0 <= i < |longer| && Edge(g, longer[i], d)
      ensures d in longer[..i] || (longer[i], d) in back
    {
      if i < |order| {
        assert longer[..i] == order[..i] && longer[i] == order[i];
      } else {
        assert longer[..i] == order;
      }
    }
  }

  lemma ExtendPath(g: Graph, p: seq<Name>, n: Name)
    requires NoDup(p) && n !in p
    requires p != [] ==> IsPath(g, p) && Edge(g, p[|p| - 1], n)
    ensures NoDup(p + [n]) && IsPath(g, p + [n]) && Elements(p + [n]) == Elements(p) + {n}
  {}

  lemma EdgeJoinsNames(g: Graph, a: Name, b: Name)
    requires a in g && b in g[a]
    ensures Edge(g, a, b) && b in Names(g)
  {}

  /** The part of path `p` from `d` on, closed with `d`. */
  function CycleFrom(p: seq<Name>, d: Name): seq<Name>
    requires d in p
  {
    p[IndexIn(p, d)..] + [d]
  }

  /** A path that comes back to one of its own names closes a simple cycle there. */
  lemma ClosingAPath(g: Graph, p: seq<Name>, d: Name)
    requires IsPath(g, p) && NoDup(p) && d in p && Edge(g, p[|p| - 1], d)
    ensures IsSimpleCycle(g, CycleFrom(p, d)) && CycleFrom(p, d)[0] == d
    ensures var c := CycleFrom(p, d); |c| >= 2 && c[|c| - 2] == p[|p| - 1] && c[|c| - 1] == d
  {
    var k := IndexIn(p, d);
    var c := CycleFrom(p, d);
    forall i | 0 <= i < |c| - 1
      ensures Edge(g, c[i], c[i + 1])
    {
      assert c[i] == p[k + i];
      if i < |c| - 2 {
        assert c[i + 1] == p[k + i + 1];
      }
    }
    assert c[..|c| - 1] == p[k..];
  }

  /** A path from `n` that leads back to `n`. */
  ghost predicate ComesBack(g: Graph, n: Name, p: seq<Name>) {
    IsPath(g, p) && p[0] == n && Edge(g, p[|p| - 1], n)
  }

  /** A cycle can be walked from any of its names. */
  lemma CycleFromAnyName(g: Graph, p: seq<Name>, n: Name) returns (q: seq<Name>)
    requires IsCycle(g, p) && n in p
    ensures ComesBack(g, n, q)
  {
    var i :| 0 <= i < |p| && p[i] == n;
    if i == 0 || i == |p| - 1 {
      q := p[..|p| - 1];
      assert Edge(g, p[|p| - 2], p[|p| - 1]);
    } else {
      q := p[i..] + p[1..i];
      forall k | 0 <= k < |q| - 1
        ensures Edge(g, q[k], q[k + 1])
      {
        var at := if k < |p| - i - 1 then i + k else k - (|p| - i - 1);
        assert Edge(g, p[at], p[at + 1]);
      }
      assert q[|q| - 1] == p[i - 1] && Edge(g, p[i - 1], p[i]);
    }
  }

  lemma ComingBackIsACycle(g: Graph, n: Name, p: seq<Name>)
    requires ComesBack(g, n, p)
    ensures IsCycle(g, p + [n])
  {}

  /** Every list of targets is a set in insertion order. */
  ghost predicate ListsSets(g: Graph) {
    forall k | k in g :: NoDup(g[k])
  }

  lemma CycleNamesHaveEntries(g: Graph, p: seq<Name>)
    requires IsCycle(g, p)
    ensures forall i | 0 <= i < |p| :: p[i] in g
  {
    forall i | 0 <= i < |p|
      ensures p[i] in g
    {
      assert Edge(g, p[if i < |p| - 1 then i else 0], p[if i < |p| - 1 then i + 1 else 1]);
    }
  }
}
