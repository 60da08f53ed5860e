/** Matching the edges of a layout back to the links of the model: packages/ui/src/topology.ts. */
module RoutedEdges {
  import opened Wrappers

  datatype Link = Link(source: string, target: string, flow: string, text: string)

  datatype Edge = Edge(source: string, target: string)

  const ARROW := "->"

  function KeyOf(source: string, target: string): string {
    source + ARROW + target
  }

  function LinkKey(link: Link): string {
    KeyOf(link.source, link.target)
  }

  function EdgeKey(edge: Edge): string {
    KeyOf(edge.source, edge.target)
  }

  /** The links with one key, in order. */
  function WithKey(links: seq<Link>, key: string): seq<Link> {
    if links == [] then []
    else
      var last := links[|links| - 1];
      WithKey(links[..|links| - 1], key) + if LinkKey(last) == key then [last] else []
  }

  /** How many edges have a key. */
  function Uses(edges: seq<Edge>, key: string): nat {
    if edges == [] then 0
    else Uses(edges[..|edges| - 1], key) + if EdgeKey(edges[|edges| - 1]) == key then 1 else 0
  }

  function Nth(links: seq<Link>, n: nat): Option<Link> {
    if n < |links| then Some(links[n]) else None
  }

  /** The first edge with a key gets the first link with it, the second the second, and so on. */
  function Matched(links: seq<Link>, edges: seq<Edge>): seq<Option<Link>> {
    seq(|edges|, i requires 0 <= i < |edges| =>
      Nth(WithKey(links, EdgeKey(edges[i])), Uses(edges[..i], EdgeKey(edges[i]))))
  }

  function Rest(links: seq<Link>, used: nat): seq<Link> {
    if used < |links| then links[used..] else []
  }

  lemma RestSteps(links: seq<Link>, used: nat)
    ensures Rest(links, used) != [] ==>
      Nth(links, used) == Some(Rest(links, used)[0]) && Rest(links, used + 1) == Rest(links, used)[1..]
    ensures Rest(links, used) == [] ==> Nth(links, used) == None && Rest(links, used + 1) == []
  {}

  lemma NextLink(links: seq<Link>, i: nat, key: string)
    requires i < |links|
    ensures WithKey(links[..i + 1], key) ==
      WithKey(links[..i], key) + if LinkKey(links[i]) == key then [links[i]] else []
  {
    assert links[..i + 1][..i] == links[..i];
  }

  lemma NextEdge(edges: seq<Edge>, i: nat, key: string)
    requires i < |edges|
    ensures Uses(edges[..i + 1], key) == Uses(edges[..i], key) + if EdgeKey(edges[i]) == key then 1 else 0
  {
    assert edges[..i + 1][..i] == edges[..i];
  }

  /** What is still waiting under a key; an empty queue and none are the same. */
  function Waiting(pending: map<string, seq<Link>>, key: string): seq<Link> {
    if key in pending then pending[key] else []
  }

  ghost predicate Collected(pending: map<string, seq<Link>>, links: seq<Link>) {
    forall key :: CollectedAt(pending, links, key)
  }

  predicate CollectedAt(pending: map<string, seq<Link>>, links: seq<Link>, key: string) {
    Waiting(pending, key) == WithKey(links, key)
  }

  ghost predicate UsedUp(pending: map<string, seq<Link>>, links: seq<Link>, edges: seq<Edge>) {
    forall key :: Waiting(pending, key) == Rest(WithKey(links, key), Uses(edges, key))
  }

  lemma CollectNext(pending: map<string, seq<Link>>, links: seq<Link>, i: nat)
    requires i < |links| && Collected(pending, links[..i])
    ensures var key := LinkKey(links[i]);
      Collected(pending[key := Waiting(pending, key) + [links[i]]], links[..i + 1])
  {
    hide WithKey, LinkKey;
    var key := LinkKey(links[i]);
    var longer, more := pending[key := Waiting(pending, key) + [links[i]]], links[..i + 1];
    forall k
      ensures CollectedAt(longer, more, k)
    {
      NextLink(links, i, k);
      assert CollectedAt(pending, links[..i], k);
    }
  }

  lemma EmptyQueue(pending: map<string, seq<Link>>, links: seq<Link>, key: string)
    requires Collected(pending, links) && key !in pending
    ensures Collected(pending[key := []], links)
  {
    hide WithKey;
    var same := pending[key := []];
    forall k
      ensures CollectedAt(same, links, k)
    {
      assert CollectedAt(pending, links, k);
    }
  }

  lemma UseNext(pending: map<string, seq<Link>>, links: seq<Link>, edges: seq<Edge>, i: nat)
    requires i < |edges| && UsedUp(pending, links, edges[..i])
    ensures var key := EdgeKey(edges[i]); var queue := Waiting(pending, key);
      && (queue == [] ==> Matched(links, edges)[i] == None && UsedUp(pending, links, edges[..i + 1]))
      && (queue != [] ==>
            && Matched(links, edges)[i] == Some(queue[0])
            && UsedUp(pending[key := queue[1..]], links, edges[..i + 1]))
  {
    hide WithKey, EdgeKey, Rest, Nth, Uses;
    var key := EdgeKey(edges[i]);
    var queue := Waiting(pending, key);
    RestSteps(WithKey(links, key), Uses(edges[..i], key));
    var left := if queue == [] then pending else pending[key := queue[1..]];
    forall k
      ensures Waiting(left, k) == Rest(WithKey(links, k), Uses(edges[..i + 1], k))
    {
      NextEdge(edges, i, k);
      assert Waiting(pending, k) == Rest(WithKey(links, k), Uses(edges[..i], k));
    }
  }

  method MatchEdges(links: seq<Link>, edges: seq<Edge>) returns (r: seq<Option<Link>>)
    ensures r == Matched(links, edges)
  {
    hide Collected, UsedUp, LinkKey, EdgeKey, Matched;
    var pending: map<string, seq<Link>> := map[];
    NothingCollected();
    for i := 0 to |links|
      invariant Collected(pending, links[..i])
    {
      var key := LinkKey(links[i]);
      if key !in pending {
        EmptyQueue(pending, links[..i], key);
        pending := pending[key := []];
      }
      CollectNext(pending, links, i);
      pending := pending[key := pending[key] + [links[i]]];
    }
    assert links[..|links|] == links;
    NothingUsed(pending, links);
    r := [];
    for i := 0 to |edges|
      invariant UsedUp(pending, links, edges[..i]) && |r| == i
      invariant |Matched(links, edges)| == |edges| && forall j | 0 <= j < i :: r[j] == Matched(links, edges)[j]
    {
      var key := EdgeKey(edges[i]);
      UseNext(pending, links, edges, i);
      var source := None;
      if key in pending && pending[key] != [] {
        source := Some(pending[key][0]);
        pending := pending[key := pending[key][1..]];
      }
      r := r + [source];
    }
  }

  lemma NothingCollected()
    ensures Collected(map[], [])
  {}

  lemma NothingUsed(pending: map<string, seq<Link>>, links: seq<Link>)
    requires Collected(pending, links)
    ensures UsedUp(pending, links, [])
    ensures forall edges :: |Matched(links, edges)| == |edges|
  {
    forall key
      ensures Waiting(pending, key) == Rest(WithKey(links, key), Uses([], key))
    {
      assert CollectedAt(pending, links, key);
    }
  }

  // ---------- Keys ----------

  predicate HasArrow(s: string) {
    exists i | 0 <= i < |s| - 1 :: s[i] == '-' && s[i + 1] == '>'
  }

  /** The key tells endpoints apart if the source has no arrow in it; the target may have. */
  lemma KeysTellApart(a: string, b: string, c: string, d: string)
    requires !HasArrow(a) && !HasArrow(c) && KeyOf(a, b) == KeyOf(c, d)
    ensures a == c && b == d
  {
    if |a| < |c| {
      LongerSourceHasArrow(a, b, c, d);
    } else if |c| < |a| {
      LongerSourceHasArrow(c, d, a, b);
    } else {
      assert a == KeyOf(a, b)[..|a|] && c == KeyOf(c, d)[..|a|];
      assert b == KeyOf(a, b)[|a| + 2..] && d == KeyOf(c, d)[|a| + 2..];
    }
  }

  lemma LongerSourceHasArrow(a: string, b: string, c: string, d: string)
    requires KeyOf(a, b) == KeyOf(c, d) && |a| < |c|
    ensures HasArrow(c)
  {
    var key, i := KeyOf(a, b), |a|;
    assert key[i] == '-' && key[i + 1] == '>' && KeyOf(c, d)[|c|] == '-';
    assert c[i] == KeyOf(c, d)[i] && c[i + 1] == KeyOf(c, d)[i + 1];
  }

  // ---------- A layout that drops what it cannot resolve ----------

  function Kept(links: seq<Link>, resolves: (string, string) -> bool): seq<Link> {
    if links == [] then []
    else
      var last := links[|links| - 1];
      Kept(links[..|links| - 1], resolves) + if resolves(last.source, last.target) then [last] else []
  }

  function EndsOf(links: seq<Link>): seq<Edge> {
    seq(|links|, i requires 0 <= i < |links| => Edge(links[i].source, links[i].target))
  }

  function Found(links: seq<Link>): seq<Option<Link>> {
    seq(|links|, i requires 0 <= i < |links| => Some(links[i]))
  }

  ghost predicate PlainSources(links: seq<Link>) {
    forall i | 0 <= i < |links| :: !HasArrow(links[i].source)
  }

  predicate SameEnds(a: Link, b: Link) {
    a.source == b.source && a.target == b.target
  }

  /** Only links between the same nodes have the same key. */
  ghost predicate KeysAreClear(links: seq<Link>) {
    forall i, j | 0 <= i < |links| && 0 <= j < |links| && LinkKey(links[i]) == LinkKey(links[j]) ::
      SameEnds(links[i], links[j])
  }

  /** Keys clash where different ends, joined by an arrow, read alike. */
  lemma ClearMeans(links: seq<Link>)
    ensures KeysAreClear(links) <==>
      forall a, b | a in links && b in links && a.source + "->" + a.target == b.source + "->" + b.target ::
        a.source == b.source && a.target == b.target
  {}

  /** So it is when no source has an arrow in its name. */
  lemma PlainSourcesAreClear(links: seq<Link>)
    requires PlainSources(links)
    ensures KeysAreClear(links)
  {
    hide HasArrow, KeyOf;
    forall i, j | 0 <= i < |links| && 0 <= j < |links| && LinkKey(links[i]) == LinkKey(links[j])
      ensures SameEnds(links[i], links[j])
    {
      KeysTellApart(links[i].source, links[i].target, links[j].source, links[j].target);
    }
  }

  lemma {:induction false} KeptAreLinks(links: seq<Link>, resolves: (string, string) -> bool, l: Link)
    requires l in Kept(links, resolves)
    ensures l in links && resolves(l.source, l.target)
  {
    if l in Kept(links[..|links| - 1], resolves) {
      KeptAreLinks(links[..|links| - 1], resolves, l);
    }
  }

  /** Dropping links of other endpoints leaves those of one pair of endpoints alone. */
  lemma {:induction false} KeptWithKey(links: seq<Link>, resolves: (string, string) -> bool, l: Link)
    requires forall i | 0 <= i < |links| && LinkKey(links[i]) == LinkKey(l) :: SameEnds(links[i], l)
    requires resolves(l.source, l.target)
    ensures WithKey(Kept(links, resolves), LinkKey(l)) == WithKey(links, LinkKey(l))
  {
    hide KeyOf;
    if links != [] {
      var last, before := links[|links| - 1], links[..|links| - 1];
      KeptWithKey(before, resolves, l);
      var kept := Kept(before, resolves);
      assert (kept + [last])[..|kept|] == kept && kept + [] == kept;
    }
  }

  /** A link stands among those of its key at the place its number of predecessors says. */
  lemma {:induction false} OwnPlace(links: seq<Link>, i: nat, n: nat)
    requires i < n <= |links|
    ensures Nth(WithKey(links[..n], LinkKey(links[i])), Uses(EndsOf(links)[..i], LinkKey(links[i]))) == Some(links[i])
  {
    hide KeyOf;
    var key := LinkKey(links[i]);
    NextLink(links, n - 1, key);
    if i < n - 1 {
      OwnPlace(links, i, n - 1);
    } else {
      UsesAreLinks(links, i, key);
    }
  }

  lemma {:induction false} UsesAreLinks(links: seq<Link>, n: nat, key: string)
    requires n <= |links|
    ensures Uses(EndsOf(links)[..n], key) == |WithKey(links[..n], key)|
  {
    if n > 0 {
      UsesAreLinks(links, n - 1, key);
      NextLink(links, n - 1, key);
      NextEdge(EndsOf(links), n - 1, key);
    }
  }

  /**
   When the layout returns the links whose ends it resolves, in order, every edge gets back the very
   link it was routed for, whatever was dropped in between.
   */
  lemma {:induction false} DroppedEdgesDoNotShift(links: seq<Link>, resolves: (string, string) -> bool)
    requires KeysAreClear(links)
    ensures Matched(links, EndsOf(Kept(links, resolves))) == Found(Kept(links, resolves))
  {
    hide WithKey, Uses, KeyOf, Kept;
    var kept := Kept(links, resolves);
    forall i | 0 <= i < |kept|
      ensures Matched(links, EndsOf(kept))[i] == Some(kept[i])
    {
      KeptAreLinks(links, resolves, kept[i]);
      KeptWithKey(links, resolves, kept[i]);
      OwnPlace(kept, i, |kept|);
      assert kept[..|kept|] == kept;
    }
  }

  /** Whatever the layout drops, the matching is right. */
  ghost predicate MatchesWhateverIsDropped(links: seq<Link>) {
    forall resolves: (string, string) -> bool ::
      Matched(links, EndsOf(Kept(links, resolves))) == Found(Kept(links, resolves))
  }

  /** The matching withstands every layout exactly if links between different nodes have different keys. */
  lemma {:induction false} ShiftsExactlyOnClashes(links: seq<Link>)
    ensures MatchesWhateverIsDropped(links) <==> KeysAreClear(links)
  {
    hide Matched, Kept, Found, EndsOf, LinkKey;
    if KeysAreClear(links) {
      forall resolves: (string, string) -> bool
        ensures Matched(links, EndsOf(Kept(links, resolves))) == Found(Kept(links, resolves))
      {
        DroppedEdgesDoNotShift(links, resolves);
      }
    } else {
      var i, j :| 0 <= i < |links| && 0 <= j < |links|
        && LinkKey(links[i]) == LinkKey(links[j]) && !SameEnds(links[i], links[j]);
      var f := FirstWithKey(links, LinkKey(links[i]), i);
      ClashShifts(links, f, if SameEnds(f, links[i]) then j else i);
    }
  }

  lemma {:induction false} FirstWithKey(links: seq<Link>, key: string, i: nat) returns (f: Link)
    requires i < |links| && LinkKey(links[i]) == key
    ensures WithKey(links, key) != [] && f == WithKey(links, key)[0] && LinkKey(f) == key && f in links
  {
    hide KeyOf, LinkKey;
    WithKeyIsThere(links, key, i);
    f := WithKey(links, key)[0];
    KeyOfMember(links, key, f);
  }

  lemma {:induction false} WithKeyIsThere(links: seq<Link>, key: string, i: nat)
    requires i < |links| && LinkKey(links[i]) == key
    ensures links[i] in WithKey(links, key)
  {
    hide KeyOf, LinkKey;
    if i < |links| - 1 {
      WithKeyIsThere(links[..|links| - 1], key, i);
    }
  }

  /** When the first link with a key is dropped, an edge between other nodes with that key is given it. */
  lemma {:induction false} ClashShifts(links: seq<Link>, f: Link, j: nat)
    requires j < |links| && LinkKey(links[j]) == LinkKey(f) && !SameEnds(links[j], f)
    requires WithKey(links, LinkKey(f)) != [] && WithKey(links, LinkKey(f))[0] == f
    ensures !MatchesWhateverIsDropped(links)
  {
    hide KeyOf, Kept, Uses, WithKey;
    var resolves := (s, t) => !(s == f.source && t == f.target);
    var kept := Kept(links, resolves);
    KeptIsThere(links, resolves, j);
    var m := FirstUse(kept, LinkKey(f), links[j]);
    assert EndsOf(kept)[m] == Edge(kept[m].source, kept[m].target);
    assert Matched(links, EndsOf(kept))[m] == Some(f);
    KeptAreLinks(links, resolves, kept[m]);
    assert Found(kept)[m] == Some(kept[m]) != Some(f);
  }

  lemma {:induction false} KeptIsThere(links: seq<Link>, resolves: (string, string) -> bool, j: nat)
    requires j < |links| && resolves(links[j].source, links[j].target)
    ensures links[j] in Kept(links, resolves)
  {
    if j < |links| - 1 {
      KeptIsThere(links[..|links| - 1], resolves, j);
    }
  }

  /** The first of some links that has a key. */
  lemma {:induction false} FirstUse(links: seq<Link>, key: string, l: Link) returns (m: nat)
    requires l in links && LinkKey(l) == key
    ensures m < |links| && LinkKey(links[m]) == key && Uses(EndsOf(links)[..m], key) == 0
  {
    hide KeyOf, LinkKey;
    var before := links[..|links| - 1];
    if exists k :: k in before && LinkKey(k) == key {
      var k :| k in before && LinkKey(k) == key;
      m := FirstUse(before, key, k);
      assert EndsOf(before)[..m] == EndsOf(links)[..m];
    } else {
      m := |links| - 1;
      assert links[m] == l;
      NoUse(links, m, key);
    }
  }

  lemma {:induction false} NoUse(links: seq<Link>, m: nat, key: string)
    requires m <= |links| && forall i | 0 <= i < m :: LinkKey(links[i]) != key
    ensures Uses(EndsOf(links)[..m], key) == 0
  {
    hide KeyOf;
    if m > 0 {
      NoUse(links, m - 1, key);
      NextEdge(EndsOf(links), m - 1, key);
    }
  }

  /** The edge has the ends of some link. */
  ghost predicate StandsForALink(links: seq<Link>, edge: Edge) {
    exists i | 0 <= i < |links| :: Edge(links[i].source, links[i].target) == edge
  }

  /** Whichever links the edges stand for, none is given a link between other nodes. */
  ghost predicate MatchesHaveTheirEnds(links: seq<Link>) {
    forall edges: seq<Edge>, i |
      0 <= i < |edges| && StandsForALink(links, edges[i]) && Matched(links, edges)[i].Some? ::
      var l := Matched(links, edges)[i].value; l in links && Edge(l.source, l.target) == edges[i]
  }

  /** That is so exactly if links between different nodes have different keys. */
  lemma {:induction false} EndsMatchExactly(links: seq<Link>)
    ensures MatchesHaveTheirEnds(links) <==> KeysAreClear(links)
  {
    hide WithKey, Uses, LinkKey, EdgeKey, Nth;
    if KeysAreClear(links) {
      forall edges: seq<Edge>, i |
        0 <= i < |edges| && StandsForALink(links, edges[i]) && Matched(links, edges)[i].Some?
        ensures var l := Matched(links, edges)[i].value; l in links && Edge(l.source, l.target) == edges[i]
      {
        MatchHasTheseEnds(links, edges, i);
      }
    } else {
      var i, j :| 0 <= i < |links| && 0 <= j < |links|
        && LinkKey(links[i]) == LinkKey(links[j]) && !SameEnds(links[i], links[j]);
      var f := FirstWithKey(links, LinkKey(links[i]), i);
      ClashMismatches(links, f, if SameEnds(f, links[i]) then j else i);
    }
  }

  lemma {:induction false} MatchHasTheseEnds(links: seq<Link>, edges: seq<Edge>, i: nat)
    requires KeysAreClear(links) && i < |edges| && StandsForALink(links, edges[i]) && Matched(links, edges)[i].Some?
    ensures var l := Matched(links, edges)[i].value; l in links && Edge(l.source, l.target) == edges[i]
  {
    hide Uses, KeyOf;
    KeyOfMember(links, EdgeKey(edges[i]), Matched(links, edges)[i].value);
  }

  /** An edge that stands for a link with the key of an earlier one between other nodes is given that one. */
  lemma {:induction false} ClashMismatches(links: seq<Link>, f: Link, j: nat)
    requires j < |links| && LinkKey(links[j]) == LinkKey(f) && !SameEnds(links[j], f)
    requires WithKey(links, LinkKey(f)) != [] && WithKey(links, LinkKey(f))[0] == f
    ensures !MatchesHaveTheirEnds(links)
  {
    hide KeyOf, WithKey;
    var edges := [Edge(links[j].source, links[j].target)];
    assert edges[..0] == [];
    assert StandsForALink(links, edges[0]);
    assert Matched(links, edges)[0] == Some(f);
  }

  lemma {:induction false} KeyOfMember(links: seq<Link>, key: string, l: Link)
    requires l in WithKey(links, key)
    ensures l in links && LinkKey(l) == key
  {
    hide KeyOf;
    if l in WithKey(links[..|links| - 1], key) {
      KeyOfMember(links[..|links| - 1], key, l);
    }
  }

  /** With an arrow in the name of a node an edge can get the link of a dropped one. */
  lemma {:induction false} ArrowsMislead(a: string, b: string, c: string)
    ensures var dropped, routed := Link(a + ARROW + b, c, "", ""), Link(a, b + ARROW + c, "", "");
      && Matched([dropped, routed], EndsOf([routed])) == [Some(dropped)]
      && dropped != routed
  {
    var dropped, routed := Link(a + ARROW + b, c, "", ""), Link(a, b + ARROW + c, "", "");
    assert |dropped.source| > |routed.source|;
    assert LinkKey(dropped) == LinkKey(routed);
    var both := [dropped, routed];
    assert both[..1] == [dropped] && both[..1][..0] == [];
    assert WithKey(both[..1], LinkKey(routed)) == [dropped];
    assert WithKey(both, LinkKey(routed)) == [dropped, routed];
    assert EndsOf([routed])[..0] == [];
  }

  // ---------- Which link an edge gets ----------

  /** The places before `k` of links between these ends, going by the key. */
  function LinksBefore(links: seq<Link>, k: nat, key: string): set<nat>
    requires k <= |links|
  {
    set a: nat | a < k && links[a].source + "->" + links[a].target == key
  }

  function EdgesBefore(edges: seq<Edge>, i: nat, key: string): set<nat>
    requires i <= |edges|
  {
    set a: nat | a < i && edges[a].source + "->" + edges[a].target == key
  }

  lemma OneMoreLink(links: seq<Link>, k: nat, key: string)
    requires k < |links|
    ensures LinksBefore(links, 0, key) == {}
    ensures LinksBefore(links, k + 1, key) == LinksBefore(links, k, key) + if LinkKey(links[k]) == key then {k} else {}
    ensures k !in LinksBefore(links, k, key)
  {}

  lemma {:induction false} LinksAreCounted(links: seq<Link>, k: nat, key: string)
    requires k <= |links|
    ensures |WithKey(links[..k], key)| == |LinksBefore(links, k, key)|
  {
    if k == 0 {
      assert LinksBefore(links, 0, key) == {};
    } else {
      hide KeyOf, LinkKey, WithKey, LinksBefore;
      LinksAreCounted(links, k - 1, key);
      NextLink(links, k - 1, key);
      OneMoreLink(links, k - 1, key);
      if LinkKey(links[k - 1]) == key {
        OneMoreMember(LinksBefore(links, k - 1, key), k - 1);
      } else {
        assert LinksBefore(links, k, key) == LinksBefore(links, k - 1, key);
      }
    }
  }

  lemma OneMoreMember(s: set<nat>, x: nat)
    requires x !in s
    ensures |s + {x}| == |s| + 1
  {}

  lemma OneMoreEdge(edges: seq<Edge>, i: nat, key: string)
    requires i < |edges|
    ensures EdgesBefore(edges, i + 1, key) == EdgesBefore(edges, i, key) + if EdgeKey(edges[i]) == key then {i} else {}
    ensures i !in EdgesBefore(edges, i, key)
  {}

  lemma {:induction false} EdgesAreCounted(edges: seq<Edge>, i: nat, key: string)
    requires i <= |edges|
    ensures Uses(edges[..i], key) == |EdgesBefore(edges, i, key)|
  {
    if i == 0 {
      assert EdgesBefore(edges, 0, key) == {};
    } else {
      hide KeyOf, EdgeKey, Uses, EdgesBefore;
      EdgesAreCounted(edges, i - 1, key);
      NextEdge(edges, i - 1, key);
      OneMoreEdge(edges, i - 1, key);
      if EdgeKey(edges[i - 1]) == key {
        OneMoreMember(EdgesBefore(edges, i - 1, key), i - 1);
      } else {
        assert EdgesBefore(edges, i, key) == EdgesBefore(edges, i - 1, key);
      }
    }
  }

  /** Of the links with a key the n-th stands where n such links are in front of it. */
  lemma {:induction false} NthWithKey(links: seq<Link>, n: nat, key: string) returns (k: nat)
    requires n < |WithKey(links, key)|
    ensures k < |links| && links[k] == WithKey(links, key)[n] && LinkKey(links[k]) == key
    ensures |LinksBefore(links, k, key)| == n
  {
    hide KeyOf, LinkKey;
    var last := |links| - 1;
    if n < |WithKey(links[..last], key)| {
      k := NthWithKey(links[..last], n, key);
      assert LinksBefore(links[..last], k, key) == LinksBefore(links, k, key);
    } else {
      k := last;
      LinksAreCounted(links, last, key);
    }
  }

  /**
   An edge gets the link between its ends that has as many such links in front of it as the edge has
   such edges; none, if there are no more links than that.
   */
  lemma MatchedMeans(links: seq<Link>, edges: seq<Edge>, i: nat)
    requires i < |edges|
    ensures var key, r := edges[i].source + "->" + edges[i].target, Matched(links, edges)[i];
      && (r.None? <==> |LinksBefore(links, |links|, key)| <= |EdgesBefore(edges, i, key)|)
      && (r.Some? ==> exists k: nat | k < |links| ::
            && r == Some(links[k]) && links[k].source + "->" + links[k].target == key
            && |LinksBefore(links, k, key)| == |EdgesBefore(edges, i, key)|)
  {
    hide WithKey, Uses, LinksBefore, EdgesBefore;
    var key := edges[i].source + "->" + edges[i].target;
    assert links[..|links|] == links;
    LinksAreCounted(links, |links|, key);
    EdgesAreCounted(edges, i, key);
    if Matched(links, edges)[i].Some? {
      var k := NthWithKey(links, Uses(edges[..i], key), key);
    }
  }
}
