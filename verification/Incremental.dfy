/** The incremental update engine: what a change touches, what must be recomputed, and how it is applied. */
module Incremental {
  import opened Basics
  import opened Graph
  import opened Reach
  import opened ConceptGraphs

  datatype ChangeEvent =
    | NodePromoted(node: NodeId)
    | NodeSuperseded(predecessor: NodeId, successor: NodeId)
    | NodeContradicted(a: NodeId, b: NodeId)
    | EdgeAdded(edge: EdgeId)
    | EdgeRemoved(edge: EdgeId)
  {
    function Anchors(): seq<NodeId> {
      match this
      case NodePromoted(n) => [n]
      case NodeSuperseded(p, s) => [p, s]
      case NodeContradicted(x, y) => [x, y]
      case _ => []
    }

    predicate IsEdgeEvent() { EdgeAdded? || EdgeRemoved? }
  }

  datatype AffectedSubgraph = AffectedSubgraph(nodes: set<NodeId>, edges: set<EdgeId>, maxDepthReached: nat)

  datatype RecomputeScope = RecomputeScope(nodes: seq<NodeId>)

  datatype UpdatePropagation = UpdatePropagation(
    event: Option<ChangeEvent>, affected: AffectedSubgraph, recompute: RecomputeScope,
    stateTransitions: map<NodeId, NodeState>, removedEdges: seq<EdgeId>)

  // ---------------------------------------------------------------- how a change spreads

  function OtherEnd(e: ConceptEdge, n: NodeId): NodeId {
    if e.from == n then e.to else e.from
  }

  /** `e` carries the change from `n` to its other end. */
  predicate Carries(e: ConceptEdge, n: NodeId, direct: bool) {
    OtherEnd(e, n) != n && (direct || (e.relation == DerivedFrom && e.to == n))
  }

  /** Where a change at `n` goes: any incident node when `n` is an anchor, else its `derived_from` dependents. */
  ghost function Impacted(g: State, n: NodeId, direct: bool): set<NodeId> {
    set e | e in EdgesAt(g, n) && Carries(e, n, direct) :: OtherEnd(e, n)
  }

  ghost function ImpactSteps(g: State, anchors: set<NodeId>): Steps {
    map n | n in g.outgoing.Keys + g.incoming.Keys :: Impacted(g, n, n in anchors)
  }

  /** The nodes derived from `n`. */
  ghost function Dependents(g: State, n: NodeId): set<NodeId> {
    set e | e in EdgesAt(g, n) && e.relation == DerivedFrom && e.to == n :: e.from
  }

  ghost function ProvenanceSteps(g: State): Steps {
    map n | n in g.outgoing.Keys + g.incoming.Keys :: Dependents(g, n)
  }

  /** Provenance restricted to `inside`. */
  ghost function ScopedSteps(g: State, inside: set<NodeId>): Steps {
    map n | n in g.outgoing.Keys + g.incoming.Keys :: Dependents(g, n) * inside
  }

  function PresentAnchors(g: State, anchors: seq<NodeId>): seq<NodeId> {
    if anchors == [] then []
    else
      var front, last := PresentAnchors(g, anchors[..|anchors| - 1]), anchors[|anchors| - 1];
      if last in g.nodes then front + [last] else front
  }

  ghost function Seeds(g: State, event: ChangeEvent): set<NodeId> {
    set a | a in event.Anchors() && a in g.nodes
  }

  ghost function IncidentIds(g: State, s: set<NodeId>): set<EdgeId> {
    set n, e | n in s && e in EdgesAt(g, n) :: e.id
  }

  /** `m` is the largest shortest distance among `nodes`. */
  ghost predicate Deepest(steps: Steps, seeds: set<NodeId>, nodes: set<NodeId>, m: nat) {
    nodes == Ball(steps, seeds, m) && (m > 0 ==> nodes != Ball(steps, seeds, m - 1))
  }

  /** The reported depth is attained: every node is within it, and one of them no nearer. */
  lemma DeepestAttained(steps: Steps, seeds: set<NodeId>, nodes: set<NodeId>, m: nat)
    requires Deepest(steps, seeds, nodes, m)
    ensures forall v :: v in nodes ==> v in Ball(steps, seeds, m)
    ensures m > 0 ==> exists v :: v in nodes && v !in Ball(steps, seeds, m - 1)
  {
    if m > 0 { BallGrows(steps, seeds, m - 1, m); }
  }

  /** On a coherent graph the listed edges of a node are its incident edges. */
  lemma EdgesAtIncident(g: State, n: NodeId)
    requires Coherent(g) && n in g.nodes
    ensures forall x :: x in EdgesAt(g, n) <==>
              x.id in g.edges && x == g.edges[x.id] && (x.from == n || x.to == n)
  {
    assert ListedAt(g, n);
    EdgesForMembers(g, g.outgoing[n]);
    EdgesForMembers(g, g.incoming[n]);
    forall x: ConceptEdge | x.id in g.edges && x == g.edges[x.id] && (x.from == n || x.to == n)
      ensures x in EdgesAt(g, n)
    {
      assert x.from == n ==> x.id in g.outgoing[n];
      assert x.to == n ==> x.id in g.incoming[n];
    }
  }

  /** The anchors of each event, as far as they are in the graph. */
  lemma SeedsExact(g: State, event: ChangeEvent, v: NodeId)
    ensures v in Seeds(g, event) <==>
            && v in g.nodes
            && match event
               case NodePromoted(n) => v == n
               case NodeSuperseded(p, s) => v == p || v == s
               case NodeContradicted(a, b) => v == a || v == b
               case EdgeAdded(_) => false
               case EdgeRemoved(_) => false
  {
    match event
    case NodePromoted(n) => assert event.Anchors() == [n];
    case NodeSuperseded(p, s) => assert event.Anchors() == [p, s] && [p, s][0] == p && [p, s][1] == s;
    case NodeContradicted(a, b) => assert event.Anchors() == [a, b] && [a, b][0] == a && [a, b][1] == b;
    case _ =>
  }

  /** `e` joins `n` to `w`: in either direction, or, unless `n` is an anchor, as a derived_from edge from `w` to `n`. */
  ghost predicate Joins(e: ConceptEdge, n: NodeId, w: NodeId, anchor: bool) {
    if anchor then (e.from == n && e.to == w) || (e.from == w && e.to == n)
    else e.from == w && e.to == n && e.relation == DerivedFrom
  }

  lemma CarriesIff(e: ConceptEdge, n: NodeId, w: NodeId, anchor: bool)
    requires e.from == n || e.to == n
    ensures Carries(e, n, anchor) && OtherEnd(e, n) == w <==> w != n && Joins(e, n, w, anchor)
  {}

  /** On a coherent graph, read off the edge map: an anchor steps to the other end of any of its edges, and any other
      node only to the sources of derived_from edges that end in it. */
  lemma ImpactFromEdges(g: State, anchors: set<NodeId>, n: NodeId, w: NodeId)
    requires Coherent(g) && n in g.nodes
    ensures w in Next(ImpactSteps(g, anchors), n) <==>
            w != n && exists e :: e in g.edges && Joins(g.edges[e], n, w, n in anchors)
  {
    EdgesAtIncident(g, n);
    if w in Next(ImpactSteps(g, anchors), n) {
      hide Coherent, EdgesAt, Carries, OtherEnd;
      var x :| x in EdgesAt(g, n) && Carries(x, n, n in anchors) && OtherEnd(x, n) == w;
      CarriesIff(x, n, w, n in anchors);
      assert Joins(g.edges[x.id], n, w, n in anchors);
    }
    if e :| w != n && e in g.edges && Joins(g.edges[e], n, w, n in anchors) {
      assert g.edges[e].id == e && n in g.outgoing;
      hide Coherent, EdgesAt, Carries, OtherEnd;
      assert g.edges[e] in EdgesAt(g, n);
      CarriesIff(g.edges[e], n, w, n in anchors);
    }
  }

  /** On a coherent graph, read off the edge map: provenance leads from a node to the sources of derived_from edges
      that end in it. */
  lemma ProvenanceFromEdges(g: State, n: NodeId, w: NodeId)
    requires Coherent(g) && n in g.nodes
    ensures w in Next(ProvenanceSteps(g), n) <==>
            exists e :: e in g.edges && g.edges[e].from == w && g.edges[e].to == n && g.edges[e].relation == DerivedFrom
    ensures forall inside :: w in Next(ScopedSteps(g, inside), n) <==> w in Next(ProvenanceSteps(g), n) && w in inside
  {
    EdgesAtIncident(g, n);
    hide EdgesAt;
    if w in Next(ProvenanceSteps(g), n) {
      var x :| x in EdgesAt(g, n) && x.relation == DerivedFrom && x.to == n && x.from == w;
      assert g.edges[x.id] == x;
    }
    if e :| e in g.edges && g.edges[e].from == w && g.edges[e].to == n && g.edges[e].relation == DerivedFrom {
      assert g.edges[e].id == e;
      assert g.edges[e] in EdgesAt(g, n);
    }
  }

  /** On a coherent graph the edges recorded at a set of its nodes are those that start or end in it. */
  lemma IncidentFromEdges(g: State, s: set<NodeId>, e: EdgeId)
    requires Coherent(g) && s <= g.nodes.Keys
    ensures e in IncidentIds(g, s) <==> e in g.edges && (g.edges[e].from in s || g.edges[e].to in s)
  {
    forall n | n in s ensures forall x :: x in EdgesAt(g, n) <==>
                                x.id in g.edges && x == g.edges[x.id] && (x.from == n || x.to == n) {
      EdgesAtIncident(g, n);
    }
    hide EdgesAt;
    if e in g.edges && (g.edges[e].from in s || g.edges[e].to in s) {
      var n := if g.edges[e].from in s then g.edges[e].from else g.edges[e].to;
      assert g.edges[e].id == e && g.edges[e] in EdgesAt(g, n);
    }
  }

  lemma {:induction false} PresentMembers(g: State, anchors: seq<NodeId>)
    ensures forall a :: a in PresentAnchors(g, anchors) <==> a in anchors && a in g.nodes
  {
    if anchors != [] {
      var front := anchors[..|anchors| - 1];
      PresentMembers(g, front);
      assert anchors == front + [anchors[|anchors| - 1]];
    }
  }

  // ---------------------------------------------------------------- the loops, on sequences of edges

  /** The ends that the edge loop offers to `insert`, in order. */
  function Carried(edges: seq<ConceptEdge>, n: NodeId, direct: bool): seq<NodeId> {
    if edges == [] then []
    else
      var front, last := Carried(edges[..|edges| - 1], n, direct), edges[|edges| - 1];
      if Carries(last, n, direct) then front + [OtherEnd(last, n)] else front
  }

  function Derived(edges: seq<ConceptEdge>, n: NodeId, inside: set<NodeId>): seq<NodeId> {
    if edges == [] then []
    else
      var front, last := Derived(edges[..|edges| - 1], n, inside), edges[|edges| - 1];
      if last.relation == DerivedFrom && last.to == n && last.from in inside then front + [last.from] else front
  }

  lemma {:induction false} CarriedMembers(edges: seq<ConceptEdge>, n: NodeId, direct: bool)
    ensures Elements(Carried(edges, n, direct)) == set e | e in edges && Carries(e, n, direct) :: OtherEnd(e, n)
  {
    if edges != [] {
      var front := edges[..|edges| - 1];
      var last := edges[|edges| - 1];
      CarriedMembers(front, n, direct);
      assert edges == front + [last];
      assert (set e | e in edges && Carries(e, n, direct) :: OtherEnd(e, n))
          == (set e | e in front && Carries(e, n, direct) :: OtherEnd(e, n))
             + if Carries(last, n, direct) then {OtherEnd(last, n)} else {};
    }
  }

  lemma {:induction false} DerivedMembers(edges: seq<ConceptEdge>, n: NodeId, inside: set<NodeId>)
    ensures Elements(Derived(edges, n, inside))
         == set e | e in edges && e.relation == DerivedFrom && e.to == n && e.from in inside :: e.from
  {
    if edges != [] {
      var front := edges[..|edges| - 1];
      var last := edges[|edges| - 1];
      DerivedMembers(front, n, inside);
      assert edges == front + [last];
      assert (set e | e in edges && e.relation == DerivedFrom && e.to == n && e.from in inside :: e.from)
          == (set e | e in front && e.relation == DerivedFrom && e.to == n && e.from in inside :: e.from)
             + if last.relation == DerivedFrom && last.to == n && last.from in inside then {last.from} else {};
    }
  }

  lemma NextImpact(g: State, anchors: set<NodeId>, n: NodeId)
    ensures Elements(Carried(EdgesAt(g, n), n, n in anchors)) == Next(ImpactSteps(g, anchors), n)
    ensures Elements(Carried(EdgesAt(g, n), n, n in anchors)) <= Universe(g)
  {
    CarriedMembers(EdgesAt(g, n), n, n in anchors);
    EdgesForMembers(g, List(g.outgoing, n));
    EdgesForMembers(g, List(g.incoming, n));
  }

  lemma NextScoped(g: State, inside: set<NodeId>, n: NodeId)
    ensures Elements(Derived(EdgesAt(g, n), n, inside)) == Next(ScopedSteps(g, inside), n)
    ensures Elements(Derived(EdgesAt(g, n), n, inside)) <= Universe(g)
  {
    DerivedMembers(EdgesAt(g, n), n, inside);
    EdgesForMembers(g, List(g.outgoing, n));
    EdgesForMembers(g, List(g.incoming, n));
  }

  /** Depth bookkeeping of the affected walk: everything popped is at most `m` deep, and `m` is attained. */
  ghost predicate DepthSoFar(queue: Queue, found: Found, popped: set<NodeId>, m: nat) {
    && popped + Queued(queue) == found.depth.Keys
    && (forall v :: v in popped ==> v in found.depth && found.depth[v] <= m)
    && (m == 0 || exists v :: v in popped && v in found.depth && found.depth[v] == m)
  }

  lemma DepthStart(s: seq<NodeId>)
    ensures DepthSoFar(Stops(s, 0), Found(map v | v in Elements(s) :: 0, map[]), {}, 0)
  {
    SearchStart(map[], None, s);
    assert Queued(Stops(s, 0)) == Elements(s) by {
      forall v | v in s ensures v in Queued(Stops(s, 0)) {
        var i :| 0 <= i < |s| && s[i] == v;
        assert Stops(s, 0)[i].node == v;
      }
    }
  }

  lemma DepthPop(queue: Queue, found: Found, popped: set<NodeId>, m: nat, novel: seq<NodeId>, d: nat, found': Found)
    requires DepthSoFar(queue, found, popped, m) && queue != []
    requires queue[0].node in found.depth && found.depth[queue[0].node] == queue[0].depth
    requires Keeps(found, found') && found'.depth.Keys == found.depth.Keys + Elements(novel)
    ensures DepthSoFar(queue[1..] + Stops(novel, d), found', popped + {queue[0].node},
                       if queue[0].depth > m then queue[0].depth else m)
  {
    var rest := queue[1..] + Stops(novel, d);
    assert Queued(rest) + {queue[0].node} == Queued(queue) + Elements(novel) by {
      forall v | v in Queued(queue) && v != queue[0].node ensures v in Queued(rest) {
        var i :| 0 <= i < |queue| && queue[i].node == v;
        assert rest[i - 1].node == v;
      }
      forall v | v in novel ensures v in Queued(rest) {
        var i :| 0 <= i < |novel| && novel[i] == v;
        assert rest[|queue| - 1 + i].node == v;
      }
    }
    var m' := if queue[0].depth > m then queue[0].depth else m;
    if m' > 0 {
      if queue[0].depth > m {
        assert queue[0].node in found'.depth && found'.depth[queue[0].node] == m';
      } else {
        var v :| v in popped && v in found.depth && found.depth[v] == m;
        assert v in found'.depth && found'.depth[v] == m';
      }
    }
  }

  lemma DepthEnd(steps: Steps, seeds: set<NodeId>, max: nat, found: Found, popped: set<NodeId>, m: nat)
    requires Searching(steps, seeds, Some(max), [], found) && DepthSoFar([], found, popped, m)
    ensures popped == found.depth.Keys == Ball(steps, seeds, max)
    ensures Deepest(steps, seeds, found.depth.Keys, m)
  {
    hide Searching, Ball;
    assert popped == found.depth.Keys;
    SearchExact(steps, seeds, Some(max), found);
    SearchComplete(steps, seeds, Some(max), found, max);
    SearchComplete(steps, seeds, Some(max), found, if m <= max then m else max);
    if m > 0 {
      var v :| v in popped && v in found.depth && found.depth[v] == m;
      assert v in Ball(steps, seeds, max);
      SearchComplete(steps, seeds, Some(max), found, m - 1);
    }
  }

  lemma IncidentIdsPush(g: State, s: set<NodeId>, n: NodeId)
    ensures IncidentIds(g, s + {n}) == IncidentIds(g, s) + Ids(EdgesAt(g, n))
  {}

  function Ids(edges: seq<ConceptEdge>): set<EdgeId> {
    set e | e in edges :: e.id
  }

  lemma EdgeLoop(edges: seq<ConceptEdge>, i: nat, n: NodeId, direct: bool, inside: set<NodeId>)
    requires i < |edges|
    ensures Ids(edges[..0]) == {} && Ids(edges[..|edges|]) == Ids(edges)
    ensures Ids(edges[..i + 1]) == Ids(edges[..i]) + {edges[i].id}
    ensures var before := Carried(edges[..i], n, direct);
            Carried(edges[..i + 1], n, direct)
            == if Carries(edges[i], n, direct) then before + [OtherEnd(edges[i], n)] else before
    ensures var before := Derived(edges[..i], n, inside);
            Derived(edges[..i + 1], n, inside)
            == if edges[i].relation == DerivedFrom && edges[i].to == n && edges[i].from in inside
               then before + [edges[i].from] else before
  {
    assert edges[..i + 1][..i] == edges[..i];
    assert edges[..|edges|] == edges;
    assert edges[..i + 1] == edges[..i] + [edges[i]];
  }

  /** Offering one more vertex to `insert`. */
  lemma UnseenOffer(s: seq<NodeId>, v: NodeId, seen: set<NodeId>, d: nat)
    ensures var before := Unseen(s, seen);
            if v in seen + Elements(before) then Unseen(s + [v], seen) == before
            else
              && Unseen(s + [v], seen) == before + [v]
              && Elements(before + [v]) == Elements(before) + {v}
              && Stops(before + [v], d) == Stops(before, d) + [Stop(v, d)]
  {
    assert (s + [v])[..|s|] == s && (s + [v])[..|s| + 1] == s + [v];
    UnseenPush(s + [v], |s|, seen);
  }

  lemma IdsAll(edges: seq<ConceptEdge>)
    ensures edges[..|edges|] == edges
  {}

  lemma CarriedStart(edges: seq<ConceptEdge>, n: NodeId, direct: bool, seen: set<NodeId>, d: nat)
    ensures Ids(edges[..0]) == {} && Unseen(Carried(edges[..0], n, direct), seen) == [] && Stops([], d) == []
  {}

  lemma DepthSkip(queue: Queue, found: Found, popped: set<NodeId>, m: nat)
    requires DepthSoFar(queue, found, popped, m) && queue != []
    requires queue[0].node in found.depth && found.depth[queue[0].node] == queue[0].depth
    ensures DepthSoFar(queue[1..], found, popped + {queue[0].node}, if queue[0].depth > m then queue[0].depth else m)
  {
    hide DepthSoFar;
    DepthPop(queue, found, popped, m, [], 0, found);
    assert queue[1..] + Stops([], 0) == queue[1..];
  }

  lemma AnchorLoopStart(g: State, anchors: seq<NodeId>)
    ensures PresentAnchors(g, anchors[..0]) == [] && Stops([], 0) == [] && anchors[..|anchors|] == anchors
  {}

  lemma AnchorLoop(g: State, anchors: seq<NodeId>, i: nat)
    requires i < |anchors|
    ensures var before := PresentAnchors(g, anchors[..i]);
            && PresentAnchors(g, anchors[..i + 1]) == (if anchors[i] in g.nodes then before + [anchors[i]] else before)
            && Elements(before + [anchors[i]]) == Elements(before) + {anchors[i]}
            && Stops(before + [anchors[i]], 0) == Stops(before, 0) + [Stop(anchors[i], 0)]
  {
    assert anchors[..i + 1][..i] == anchors[..i];
  }

  lemma AffectedStart(g: State, event: ChangeEvent, starts: seq<NodeId>, steps: Steps, max: Option<nat>)
    returns (found: Found)
    requires starts == PresentAnchors(g, event.Anchors())
    ensures Elements(starts) == Seeds(g, event) == found.depth.Keys <= Universe(g)
    ensures Searching(steps, Seeds(g, event), max, Stops(starts, 0), found)
    ensures DepthSoFar(Stops(starts, 0), found, {}, 0)
    ensures IncidentIds(g, {}) == {}
    ensures ByDepth(found, Unseen(starts, {}))
  {
    hide Searching, DepthSoFar, ByDepth, Unseen;
    found := Found(map v | v in Elements(starts) :: 0, map[]);
    PresentMembers(g, event.Anchors());
    assert Elements(starts) == Seeds(g, event);
    SearchStart(steps, max, starts);
    DepthStart(starts);
    UnseenMembers(starts, {});
  }

  datatype Engine = Engine(maxPropagationDepth: nat) {

    method AffectedBy(graph: ConceptGraph, event: ChangeEvent) returns (sub: AffectedSubgraph)
      ensures event.IsEdgeEvent() ==> sub == AffectedSubgraph({}, {event.edge}, 0)
      ensures !event.IsEdgeEvent() ==>
                var g := graph.View();
                var seeds := Seeds(g, event);
                var steps := ImpactSteps(g, seeds);
                && sub.nodes == Ball(steps, seeds, maxPropagationDepth)
                && sub.edges == IncidentIds(g, sub.nodes)
                && Deepest(steps, seeds, sub.nodes, sub.maxDepthReached)
    {
      hide Searching, Ball, ImpactSteps, IncidentIds, Deepest, DepthSoFar, Unseen, EdgesAt, Stops, Universe, Carried,
           PresentAnchors, Ids, Seeds, ByDepth, Keeps;
      var anchors := event.Anchors();
      if anchors == [] {
        return AffectedSubgraph({}, {event.edge}, 0);
      }
      ghost var g := graph.View();
      var nodes, frontier := SeedFrontier(graph, anchors);
      var edges: set<EdgeId>, maxDepthReached: nat := {}, 0;
      ghost var seeds := Seeds(g, event);
      ghost var steps := ImpactSteps(g, seeds);
      ghost var max := Some(maxPropagationDepth);
      ghost var popped: set<NodeId> := {};
      ghost var found := AffectedStart(g, event, PresentAnchors(g, anchors), steps, max);
      while frontier != []
        invariant Searching(steps, seeds, max, frontier, found)
        invariant nodes == found.depth.Keys && nodes <= Universe(g)
        invariant DepthSoFar(frontier, found, popped, maxDepthReached)
        invariant edges == IncidentIds(g, popped)
        decreases Universe(g) - nodes, |frontier|
      {
        ghost var queue, known, deepest := frontier, nodes, maxDepthReached;
        var Stop(id, depth) := frontier[0];
        SearchHead(steps, seeds, max, queue, found);
        frontier := frontier[1..];
        if depth > maxDepthReached {
          maxDepthReached := depth;
        }
        var incident := graph.GetEdges(id);
        IncidentIdsPush(g, popped, id);
        if depth >= maxPropagationDepth {
          edges := RecordEdges(incident, edges);
          SearchSkip(steps, seeds, max, queue, found);
          DepthSkip(queue, found, popped, deepest);
          popped := popped + {id};
          continue;
        }
        nodes, edges, frontier := Spread(incident, id, depth, nodes, edges, frontier);
        ghost var next := Carried(incident, id, depth == 0);
        NextImpact(g, seeds, id);
        UnseenGrows(next, known);
        UnseenInside(next, known, Universe(g));
        ByDepthNone(found);
        ghost var found' := SearchExpand(steps, seeds, max, queue, found, next, []);
        DepthPop(queue, found, popped, deepest, Unseen(next, known), depth + 1, found');
        popped, found := popped + {id}, found';
        assert Unseen(next, known) == [] ==> nodes == known && |frontier| < |queue|;
      }
      DepthEnd(steps, seeds, maxPropagationDepth, found, popped, maxDepthReached);
      return AffectedSubgraph(nodes, edges, maxDepthReached);
    }

    method RecomputeFor(graph: ConceptGraph, event: ChangeEvent, affected: AffectedSubgraph)
      returns (scope: RecomputeScope)
      ensures var g := graph.View();
              var seeds := Seeds(g, event);
              var steps := ScopedSteps(g, affected.nodes);
              && NoDup(scope.nodes)
              && (forall v :: v in scope.nodes <==> Reached(steps, seeds, v))
              && NearestFirst(steps, seeds, scope.nodes)
              && Unseen(PresentAnchors(g, event.Anchors()), {}) <= scope.nodes
    {
      hide Searching, Reached, ScopedSteps, Unseen, EdgesAt, Stops, Universe, Derived, PresentAnchors, Seeds, ByDepth,
           Keeps, Nodes, NearestFirst, DepthSoFar, IncidentIds, NoDup, Lists;
      ghost var g := graph.View();
      var nodes := FirstPresent(graph, event.Anchors());
      var seen := set n | n in nodes;
      ghost var starts := PresentAnchors(g, event.Anchors());
      ghost var seeds := Seeds(g, event);
      ghost var steps := ScopedSteps(g, affected.nodes);
      ghost var found, queue := ScopeStart(g, event, starts, nodes, steps);
      var frontier := nodes;
      while frontier != []
        invariant Searching(steps, seeds, None, queue, found) && frontier == Nodes(queue) && |frontier| == |queue|
        invariant seen == found.depth.Keys == Elements(nodes) && seen <= Universe(g)
        invariant ByDepth(found, nodes) && NoDup(nodes) && Unseen(starts, {}) <= nodes
        decreases Universe(g) - seen, |frontier|
      {
        ghost var known := seen;
        ghost var listed := nodes;
        var id := frontier[0];
        var incident := graph.GetEdges(id);
        NodesAppend(queue, Unseen(Derived(incident, id, affected.nodes), known), queue[0].depth + 1);
        SearchHead(steps, seeds, None, queue, found);
        nodes, seen, frontier := Derive(incident, id, affected.nodes, nodes, seen, frontier[1..]);
        ghost var next := Derived(incident, id, affected.nodes);
        NextScoped(g, affected.nodes, id);
        UnseenGrows(next, known);
        UnseenInside(next, known, Universe(g));
        NoDupExtend(listed, next, known);
        found := SearchExpand(steps, seeds, None, queue, found, next, listed);
        queue := queue[1..] + Stops(Unseen(next, known), queue[0].depth + 1);
        assert Unseen(next, known) == [] ==> seen == known;
      }
      SearchExact(steps, seeds, None, found);
      SearchNearestFirst(steps, seeds, None, found, nodes);
      assert forall v :: v in nodes <==> v in Elements(nodes);
      return RecomputeScope(nodes);
    }
  }

  /** The present anchors, each once. */
  method FirstPresent(graph: ConceptGraph, anchors: seq<NodeId>) returns (nodes: seq<NodeId>)
    ensures nodes == Unseen(PresentAnchors(graph.View(), anchors), {})
  {
    hide PresentAnchors, Unseen, Stops;
    nodes := [];
    var seen: set<NodeId> := {};
    AnchorLoopStart(graph.View(), anchors);
    UnseenStart([], {}, 0);
    for i := 0 to |anchors|
      invariant nodes == Unseen(PresentAnchors(graph.View(), anchors[..i]), {})
      invariant seen == Elements(nodes)
    {
      AnchorLoop(graph.View(), anchors, i);
      UnseenOffer(PresentAnchors(graph.View(), anchors[..i]), anchors[i], {}, 0);
      if anchors[i] in graph.nodes && anchors[i] !in seen {
        seen := seen + {anchors[i]};
        nodes := nodes + [anchors[i]];
      }
    }
  }

  /** Queue the unseen `derived_from` dependents of `id` that lie inside the affected set. */
  method Derive(incident: seq<ConceptEdge>, id: NodeId, inside: set<NodeId>, nodes0: seq<NodeId>, seen0: set<NodeId>,
                frontier0: seq<NodeId>)
    returns (nodes: seq<NodeId>, seen: set<NodeId>, frontier: seq<NodeId>)
    ensures var novel := Unseen(Derived(incident, id, inside), seen0);
            && nodes == nodes0 + novel
            && seen == seen0 + Elements(novel)
            && frontier == frontier0 + novel
  {
    hide Unseen, Derived, Stops, Ids, Carried;
    nodes, seen, frontier := nodes0, seen0, frontier0;
    DerivedStart(incident, id, inside, seen0);
    for i := 0 to |incident|
      invariant nodes == nodes0 + Unseen(Derived(incident[..i], id, inside), seen0)
      invariant seen == seen0 + Elements(Unseen(Derived(incident[..i], id, inside), seen0))
      invariant frontier == frontier0 + Unseen(Derived(incident[..i], id, inside), seen0)
    {
      EdgeLoop(incident, i, id, false, inside);
      var e := incident[i];
      if e.relation != DerivedFrom { continue; }
      if e.to != id { continue; }
      var dependent := e.from;
      if dependent !in inside { continue; }
      UnseenOffer(Derived(incident[..i], id, inside), dependent, seen0, 0);
      if dependent !in seen {
        seen := seen + {dependent};
        nodes := nodes + [dependent];
        frontier := frontier + [dependent];
      }
    }
    IdsAll(incident);
  }

  lemma DerivedStart(edges: seq<ConceptEdge>, n: NodeId, inside: set<NodeId>, seen: set<NodeId>)
    ensures Unseen(Derived(edges[..0], n, inside), seen) == []
  {}

  lemma NoDupExtend(listed: seq<NodeId>, next: seq<NodeId>, seen: set<NodeId>)
    requires NoDup(listed) && Elements(listed) == seen
    ensures NoDup(listed + Unseen(next, seen))
    ensures Elements(listed + Unseen(next, seen)) == seen + Elements(Unseen(next, seen))
  {
    var novel := Unseen(next, seen);
    UnseenMembers(next, seen);
    forall i, j | 0 <= i < j < |listed + novel| ensures (listed + novel)[i] != (listed + novel)[j] {
      if i < |listed| <= j { assert listed[i] in Elements(listed) && novel[j - |listed|] in novel; }
    }
  }

  lemma ScopeStart(g: State, event: ChangeEvent, starts: seq<NodeId>, nodes: seq<NodeId>, steps: Steps)
    returns (found: Found, queue: Queue)
    requires starts == PresentAnchors(g, event.Anchors()) && nodes == Unseen(starts, {})
    ensures Elements(nodes) == Seeds(g, event) == found.depth.Keys <= Universe(g)
    ensures Searching(steps, Seeds(g, event), None, queue, found) && Nodes(queue) == nodes && |queue| == |nodes|
    ensures ByDepth(found, nodes) && NoDup(nodes)
  {
    hide Searching, ByDepth, Unseen, Nodes;
    PresentMembers(g, event.Anchors());
    UnseenMembers(starts, {});
    assert Elements(nodes) == Seeds(g, event);
    found, queue := Found(map v | v in Elements(nodes) :: 0, map[]), Stops(nodes, 0);
    SearchStart(steps, None, nodes);
    NodesAppend([], nodes, 0);
  }

  lemma ByDepthNone(found: Found)
    ensures ByDepth(found, [])
  {}

  lemma UnseenInside(next: seq<NodeId>, seen: set<NodeId>, universe: set<NodeId>)
    requires Elements(next) <= universe
    ensures Elements(Unseen(next, seen)) <= universe
  {
    UnseenMembers(next, seen);
    assert forall v :: v in next ==> v in Elements(next);
  }

  /** Queue the anchors that are in the graph, at depth 0. */
  method SeedFrontier(graph: ConceptGraph, anchors: seq<NodeId>) returns (nodes: set<NodeId>, frontier: Queue)
    ensures nodes == Elements(PresentAnchors(graph.View(), anchors))
    ensures frontier == Stops(PresentAnchors(graph.View(), anchors), 0)
  {
    hide PresentAnchors, Stops;
    nodes, frontier := {}, [];
    AnchorLoopStart(graph.View(), anchors);
    for i := 0 to |anchors|
      invariant nodes == Elements(PresentAnchors(graph.View(), anchors[..i]))
      invariant frontier == Stops(PresentAnchors(graph.View(), anchors[..i]), 0)
    {
      AnchorLoop(graph.View(), anchors, i);
      if anchors[i] in graph.nodes {
        nodes := nodes + {anchors[i]};
        frontier := frontier + [Stop(anchors[i], 0)];
      }
    }
  }

  /** At the depth bound only the incident edges are recorded. */
  method RecordEdges(incident: seq<ConceptEdge>, edges0: set<EdgeId>) returns (edges: set<EdgeId>)
    ensures edges == edges0 + Ids(incident)
  {
    edges := edges0;
    for i := 0 to |incident|
      invariant edges == edges0 + Ids(incident[..i])
    {
      assert incident[..i + 1] == incident[..i] + [incident[i]];
      edges := edges + {incident[i].id};
    }
    assert incident[..|incident|] == incident;
  }

  /** Below the bound: record the incident edges and queue the ends they carry the change to. */
  method Spread(incident: seq<ConceptEdge>, id: NodeId, depth: nat, nodes0: set<NodeId>, edges0: set<EdgeId>,
                frontier0: Queue)
    returns (nodes: set<NodeId>, edges: set<EdgeId>, frontier: Queue)
    ensures var novel := Unseen(Carried(incident, id, depth == 0), nodes0);
            && edges == edges0 + Ids(incident)
            && nodes == nodes0 + Elements(novel)
            && frontier == frontier0 + Stops(novel, depth + 1)
  {
    hide Unseen, Carried, Stops, Ids;
    nodes, edges, frontier := nodes0, edges0, frontier0;
    var direct := depth == 0;
    CarriedStart(incident, id, direct, nodes0, depth + 1);
    for i := 0 to |incident|
      invariant edges == edges0 + Ids(incident[..i])
      invariant nodes == nodes0 + Elements(Unseen(Carried(incident[..i], id, direct), nodes0))
      invariant frontier == frontier0 + Stops(Unseen(Carried(incident[..i], id, direct), nodes0), depth + 1)
    {
      EdgeLoop(incident, i, id, direct, {});
      var e := incident[i];
      edges := edges + {e.id};
      var other := if e.from == id then e.to else e.from;
      if other == id { continue; }
      var inProvenance := e.relation == DerivedFrom && e.to == id;
      if direct || inProvenance {
        UnseenOffer(Carried(incident[..i], id, direct), other, nodes0, depth + 1);
        if other !in nodes {
          nodes := nodes + {other};
          frontier := frontier + [Stop(other, depth + 1)];
        }
      }
    }
    IdsAll(incident);
  }

  // ---------------------------------------------------------------- what the two walks mean together

  /** The nodes the affected walk returns for a bound of `d`. */
  ghost function AffectedNodes(g: State, event: ChangeEvent, d: nat): set<NodeId> {
    Ball(ImpactSteps(g, Seeds(g, event)), Seeds(g, event), d)
  }

  /** `v` is in the recompute scope that follows an affected walk of bound `d`. */
  ghost predicate InScope(g: State, event: ChangeEvent, d: nat, v: NodeId) {
    Reached(ScopedSteps(g, AffectedNodes(g, event, d)), Seeds(g, event), v)
  }

  /** The recompute scope never leaves the affected nodes. */
  lemma ScopeInsideAffected(g: State, event: ChangeEvent, d: nat, v: NodeId)
    requires InScope(g, event, d, v)
    ensures v in AffectedNodes(g, event, d)
  {
    var seeds, inside := Seeds(g, event), AffectedNodes(g, event, d);
    var steps := ScopedSteps(g, inside);
    BallGrows(ImpactSteps(g, seeds), seeds, 0, d);
    assert ClosedIn(steps, seeds, inside) by {
      forall u, w | u in inside && w in Next(steps, u) ensures w in inside {}
    }
    var k: nat :| v in Ball(steps, seeds, k);
    BallInside(steps, seeds, inside, k);
  }

  lemma DependentsAreImpacted(g: State, anchors: set<NodeId>, v: NodeId, w: NodeId)
    requires w in Next(ProvenanceSteps(g), v)
    ensures w == v || w in Next(ImpactSteps(g, anchors), v)
  {
    var e :| e in EdgesAt(g, v) && e.relation == DerivedFrom && e.to == v && e.from == w;
    if w != v {
      assert Carries(e, v, v in anchors) && OtherEnd(e, v) == w;
    }
  }

  /** Within the bound the affected walk meets every provenance dependent. */
  lemma ProvenanceInsideAffected(g: State, event: ChangeEvent, d: nat)
    ensures Ball(ProvenanceSteps(g), Seeds(g, event), d) <= AffectedNodes(g, event, d)
  {
    var seeds := Seeds(g, event);
    forall v, w | w in Next(ProvenanceSteps(g), v) ensures w == v || w in Next(ImpactSteps(g, seeds), v) {
      DependentsAreImpacted(g, seeds, v, w);
    }
    BallMonotone(ProvenanceSteps(g), ImpactSteps(g, seeds), seeds, d);
  }

  /** The scope holds every dependent within `d` provenance hops of a present anchor. */
  lemma ScopeHoldsDependents(g: State, event: ChangeEvent, d: nat, v: NodeId)
    requires v in Ball(ProvenanceSteps(g), Seeds(g, event), d)
    ensures InScope(g, event, d, v)
  {
    ProvenanceInsideAffected(g, event, d);
    var inside := AffectedNodes(g, event, d);
    BallRestricted(ProvenanceSteps(g), ScopedSteps(g, inside), Seeds(g, event), inside, d);
  }

  /** A bound of at least the node count makes the scope the whole provenance closure. */
  lemma ScopeIsClosure(g: State, event: ChangeEvent, d: nat, v: NodeId)
    requires Coherent(g) && |g.nodes| <= d
    ensures InScope(g, event, d, v) <==> Reached(ProvenanceSteps(g), Seeds(g, event), v)
  {
    var seeds := Seeds(g, event);
    if Reached(ProvenanceSteps(g), seeds, v) {
      ProvenanceClosed(g, event);
      assert |g.nodes.Keys| == |g.nodes|;
      BallIsClosure(ProvenanceSteps(g), seeds, g.nodes.Keys, d);
      ScopeHoldsDependents(g, event, d, v);
    }
    if InScope(g, event, d, v) { ScopeInClosure(g, event, d, v); }
  }

  lemma ProvenanceClosed(g: State, event: ChangeEvent)
    requires Coherent(g)
    ensures ClosedIn(ProvenanceSteps(g), Seeds(g, event), g.nodes.Keys)
  {
    forall v, w | v in g.nodes && w in Next(ProvenanceSteps(g), v) ensures w in g.nodes {
      EdgesAtIncident(g, v);
    }
  }

  lemma AffectedReached(g: State, event: ChangeEvent, d: nat)
    requires d > 0 ==> forall a, w :: a in Seeds(g, event) && w in Impacted(g, a, true) ==> InScope(g, event, d, w)
    ensures forall v :: v in AffectedNodes(g, event, d) ==> InScope(g, event, d, v)
  {
    var seeds, inside := Seeds(g, event), AffectedNodes(g, event, d);
    var impact, scoped := ImpactSteps(g, seeds), ScopedSteps(g, inside);
    if d == 0 {
      assert forall v :: v in seeds ==> v in Ball(scoped, seeds, 0);
    } else {
      forall u, v | v in Next(impact, u) && v in inside ensures v in Next(scoped, u) || Reached(scoped, seeds, v) {
        if u in seeds { assert InScope(g, event, d, v); }
      }
      BallReached(impact, scoped, seeds, inside, d);
    }
  }

  /** The nodes at the other end of an edge of a present anchor. */
  ghost function DirectNeighbours(g: State, event: ChangeEvent): set<NodeId> {
    set a, w | a in Seeds(g, event) && w in Impacted(g, a, true) :: w
  }

  ghost predicate Strict(g: State, event: ChangeEvent, d: nat) {
    exists v :: v in AffectedNodes(g, event, d) && !InScope(g, event, d, v)
  }

  lemma StrictAtNeighbour(g: State, event: ChangeEvent, d: nat)
    ensures Strict(g, event, d) <==> d > 0 && exists w :: w in DirectNeighbours(g, event) && !InScope(g, event, d, w)
  {
    var seeds := Seeds(g, event);
    var impact := ImpactSteps(g, seeds);
    if d > 0 && exists w :: w in DirectNeighbours(g, event) && !InScope(g, event, d, w) {
      var w :| w in DirectNeighbours(g, event) && !InScope(g, event, d, w);
      var a :| a in seeds && w in Impacted(g, a, true);
      assert EdgesAt(g, a) != [];
      assert w in Next(impact, a);
      BallStep(impact, seeds, 0, a, w);
      BallGrows(impact, seeds, 1, d);
    } else {
      AffectedReached(g, event, d);
    }
  }

  lemma ImpactSplit(g: State, seeds: set<NodeId>, u: NodeId)
    ensures u in seeds ==> Next(ImpactSteps(g, seeds), u) == Impacted(g, u, true)
    ensures u !in seeds ==> Next(ImpactSteps(g, seeds), u) <= Next(ProvenanceSteps(g), u)
  {
    if u !in g.outgoing.Keys + g.incoming.Keys {
      assert EdgesAt(g, u) == [];
    }
  }

  lemma ImpactImage(g: State, event: ChangeEvent, ball: set<NodeId>)
    requires Seeds(g, event) + DirectNeighbours(g, event) <= ball
    ensures var impact := ImpactSteps(g, Seeds(g, event));
            ball + Image(impact, ball) == ball + Image(ProvenanceSteps(g), ball)
  {
    var seeds := Seeds(g, event);
    var impact, provenance := ImpactSteps(g, seeds), ProvenanceSteps(g);
    forall u, w | u in ball && w in Next(impact, u) ensures w in ball + Image(provenance, ball) {
      ImpactSplit(g, seeds, u);
      if u in seeds { assert w in DirectNeighbours(g, event); }
    }
    forall u, w | u in ball && w in Next(provenance, u) ensures w in ball + Image(impact, ball) {
      DependentsAreImpacted(g, seeds, u, w);
    }
  }

  /** Past its first step the affected walk follows provenance only. */
  lemma {:induction false} AffectedIsProvenance(g: State, event: ChangeEvent, d: nat)
    requires d > 0
    ensures AffectedNodes(g, event, d) == Ball(ProvenanceSteps(g), Seeds(g, event) + DirectNeighbours(g, event), d - 1)
  {
    var seeds, near := Seeds(g, event), Seeds(g, event) + DirectNeighbours(g, event);
    var impact, provenance := ImpactSteps(g, seeds), ProvenanceSteps(g);
    if d == 1 {
      BallZero(impact, seeds);
      BallZero(provenance, near);
      forall a | a in seeds ensures Next(impact, a) == Impacted(g, a, true) { ImpactSplit(g, seeds, a); }
      hide ImpactSteps, ProvenanceSteps, Impacted, Seeds;
      assert Image(impact, seeds) == DirectNeighbours(g, event);
    } else {
      AffectedIsProvenance(g, event, d - 1);
      BallGrows(provenance, near, 0, d - 2);
      hide ImpactSteps, ProvenanceSteps, Impacted, Image, DirectNeighbours, Seeds;
      ImpactImage(g, event, Ball(provenance, near, d - 2));
    }
  }

  /** Provenance leads from a present anchor to `w` without leaving what lies within `k` hops of an anchor or a
      neighbour. */
  ghost predicate DerivedNear(g: State, event: ChangeEvent, k: nat, w: NodeId) {
    var near := Ball(ProvenanceSteps(g), Seeds(g, event) + DirectNeighbours(g, event), k);
    Reached(ScopedSteps(g, near), Seeds(g, event), w)
  }

  /** The scope is a proper part of the affected nodes exactly when the bound is positive and some direct neighbour
      of a present anchor is not derived from one nearby. */
  lemma ScopeStrictIff(g: State, event: ChangeEvent, d: nat)
    ensures Strict(g, event, d) <==>
            d > 0 && exists w :: w in DirectNeighbours(g, event) && !DerivedNear(g, event, d - 1, w)
  {
    StrictAtNeighbour(g, event, d);
    if d > 0 { AffectedIsProvenance(g, event, d); }
  }

  lemma ScopeInClosure(g: State, event: ChangeEvent, d: nat, v: NodeId)
    requires InScope(g, event, d, v)
    ensures Reached(ProvenanceSteps(g), Seeds(g, event), v)
  {
    var seeds, inside := Seeds(g, event), AffectedNodes(g, event, d);
    var k: nat :| v in Ball(ScopedSteps(g, inside), seeds, k);
    BallMonotone(ScopedSteps(g, inside), ProvenanceSteps(g), seeds, k);
  }

  /** With a bound of at least the node count: strict exactly when some direct neighbour is outside the provenance
      closure. */
  lemma ScopeStrictDeepIff(g: State, event: ChangeEvent, d: nat)
    requires Coherent(g) && |g.nodes| <= d
    ensures Strict(g, event, d) <==>
            d > 0 && exists w :: w in DirectNeighbours(g, event) && !Reached(ProvenanceSteps(g), Seeds(g, event), w)
  {
    hide Coherent, Reached, InScope, ProvenanceSteps, Strict;
    StrictAtNeighbour(g, event, d);
    forall w ensures InScope(g, event, d, w) <==> Reached(ProvenanceSteps(g), Seeds(g, event), w) {
      ScopeIsClosure(g, event, d, w);
    }
  }

  /** For every bound: a neighbour outside the closure makes it strict, and neighbours all within `d` hops make it
      equal. */
  lemma ScopeStrictBounds(g: State, event: ChangeEvent, d: nat)
    ensures d > 0
            && (exists w :: w in DirectNeighbours(g, event) && !Reached(ProvenanceSteps(g), Seeds(g, event), w)) ==>
              Strict(g, event, d)
    ensures DirectNeighbours(g, event) <= Ball(ProvenanceSteps(g), Seeds(g, event), d) ==> !Strict(g, event, d)
  {
    hide Reached, InScope, ProvenanceSteps, Strict;
    StrictAtNeighbour(g, event, d);
    forall w | InScope(g, event, d, w) ensures Reached(ProvenanceSteps(g), Seeds(g, event), w) {
      ScopeInClosure(g, event, d, w);
    }
    forall w | w in Ball(ProvenanceSteps(g), Seeds(g, event), d) ensures InScope(g, event, d, w) {
      ScopeHoldsDependents(g, event, d, w);
    }
  }

  /** The documented strict subset fails on a single node, whatever the bound. */
  lemma ScopeNeedNotBeStrict(node: ConceptNode, d: nat)
    ensures var g := AddNode(EMPTY, node).graph;
            && Coherent(g) && !Strict(g, NodePromoted(node.id), d)
            && AffectedNodes(g, NodePromoted(node.id), d) == {node.id}
  {
    var g, event := AddNode(EMPTY, node).graph, NodePromoted(node.id);
    EmptyCoherent();
    AddNodeCoherent(EMPTY, node);
    hide Coherent;
    assert Seeds(g, event) == {node.id};
    assert EdgesAt(g, node.id) == [];
    assert DirectNeighbours(g, event) == {};
    ScopeStrictBounds(g, event, d);
    assert ClosedIn(ImpactSteps(g, {node.id}), {node.id}, {node.id});
    BallInside(ImpactSteps(g, {node.id}), {node.id}, {node.id}, d);
    BallGrows(ImpactSteps(g, {node.id}), {node.id}, 0, d);
  }
}
