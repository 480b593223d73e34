/** Driving a change through the graph: all or nothing, and only at the anchors. */
module Propagate {
  import opened Basics
  import opened Graph
  import opened Reach
  import opened ConceptGraphs
  import opened Incremental

  /** The random edge ids and the clock that one propagation may draw. */
  datatype Draw = Draw(e1: EdgeId, e2: EdgeId, now: Time)

  datatype Change = Change(transitions: map<NodeId, NodeState>, removed: seq<EdgeId>)

  /** The mutation an event asks for. */
  function Settle(g: State, event: ChangeEvent, draw: Draw): Effect<Change> {
    match event
    case NodePromoted(n) =>
      if n !in g.nodes then Effect(g, Err(NodeNotFound(n)))
      else if g.nodes[n].state == Candidate then
        Effect(SetNode(g, n, g.nodes[n].MarkCanonical(draw.now)), Ok(Change(map[n := Canonical], [])))
      else Effect(g, Ok(Change(map[], [])))
    case NodeSuperseded(p, s) =>
      var r := SupersedeNode(g, p, s, draw.e1, draw.now);
      Effect(r.graph, if r.result.Ok? then Ok(Change(map[p := Superseded], [])) else Err(r.result.error))
    case NodeContradicted(a, b) =>
      var r := MarkContradiction(g, a, b, draw.e1, draw.e2, draw.now);
      Effect(r.graph,
          if r.result.Ok? then Ok(Change(map[a := Contradicted, b := Contradicted], [])) else Err(r.result.error))
    case EdgeAdded(_) => Effect(g, Ok(Change(map[], [])))
    case EdgeRemoved(e) =>
      var r := RemoveEdge(g, e);
      Effect(r.graph, Ok(Change(map[], if r.result.Ok? then [e] else [])))
  }

  /** The drawn ids are unused. */
  predicate FreshDraw(g: State, event: ChangeEvent, draw: Draw) {
    && (event.NodeSuperseded? || event.NodeContradicted? ==> draw.e1 !in g.edges)
    && (event.NodeContradicted? ==> draw.e2 !in g.edges && draw.e1 != draw.e2)
  }

  ghost function AddedEdges(g: State, event: ChangeEvent, draw: Draw): map<EdgeId, ConceptEdge>
    requires forall a :: a in event.Anchors() ==> a in g.nodes
  {
    match event
    case NodeSuperseded(p, s) => map[draw.e1 := NewEdge(draw.e1, p, s, Supersedes, g.nodes[p].scopeId, draw.now)]
    case NodeContradicted(a, b) =>
      map[draw.e1 := NewEdge(draw.e1, a, b, Contradicts, g.nodes[a].scopeId, draw.now)]
      + map[draw.e2 := NewEdge(draw.e2, b, a, Contradicts, g.nodes[b].scopeId, draw.now)]
    case _ => map[]
  }

  /** A propagation refuses exactly a missing or repeated anchor, and then nothing changes. */
  lemma SettleRefusal(g: State, event: ChangeEvent, draw: Draw)
    ensures Settle(g, event, draw).result.Err? <==>
            || (exists a :: a in event.Anchors() && a !in g.nodes)
            || (exists i, j :: 0 <= i < j < |event.Anchors()| && event.Anchors()[i] == event.Anchors()[j])
    ensures Settle(g, event, draw).result.Err? ==> Settle(g, event, draw).graph == g
  {
    var anchors := event.Anchors();
    match event
    case NodePromoted(n) => assert anchors == [n];
    case NodeSuperseded(p, s) => assert anchors == [p, s] && anchors[0] == p && anchors[1] == s;
    case NodeContradicted(a, b) => assert anchors == [a, b] && anchors[0] == a && anchors[1] == b;
    case _ => assert anchors == [];
  }

  /** Nodes outside the anchors are untouched, and every state change is reported with its new state. */
  ghost predicate OnlyAnchors(g: State, h: State, event: ChangeEvent, change: Change) {
    && h.nodes.Keys == g.nodes.Keys
    && (forall n :: n in g.nodes && n !in event.Anchors() ==> h.nodes[n] == g.nodes[n])
    && (forall n :: n in g.nodes && h.nodes[n].state != g.nodes[n].state ==> n in change.transitions)
    && (forall n :: n in change.transitions ==> n in h.nodes && h.nodes[n].state == change.transitions[n])
  }

  /** Edges differ only by the ones the event adds, or by the one it removes. */
  ghost predicate OnlyNamedEdges(g: State, h: State, event: ChangeEvent, draw: Draw, change: Change) {
    && (forall a :: a in event.Anchors() ==> a in g.nodes)
    && h.edges == (if event.EdgeRemoved? then g.edges - {event.edge} else g.edges + AddedEdges(g, event, draw))
    && change.removed == if event.EdgeRemoved? && event.edge in g.edges then [event.edge] else []
  }

  /** What a successful propagation may change. */
  ghost predicate Framed(g: State, event: ChangeEvent, draw: Draw) {
    var r := Settle(g, event, draw);
    r.result.Ok? && OnlyAnchors(g, r.graph, event, r.result.value)
        && OnlyNamedEdges(g, r.graph, event, draw, r.result.value)
  }

  lemma SupersedeParts(g: State, p: NodeId, s: NodeId, draw: Draw)
    requires p in g.nodes && s in g.nodes && p != s
    ensures var h := SupersedeNode(g, p, s, draw.e1, draw.now);
            && h.result.Ok?
            && h.graph.nodes == g.nodes[p := g.nodes[p].MarkSupersededBy(s, draw.now)]
            && h.graph.edges == g.edges[draw.e1 := NewEdge(draw.e1, p, s, Supersedes, g.nodes[p].scopeId, draw.now)]
  {}

  lemma ContradictParts(g: State, a: NodeId, b: NodeId, draw: Draw)
    requires a in g.nodes && b in g.nodes && a != b
    ensures var h := MarkContradiction(g, a, b, draw.e1, draw.e2, draw.now);
            && h.result.Ok?
            && h.graph.nodes == g.nodes[a := g.nodes[a].MarkContradictedBy(b, draw.now)]
                                       [b := g.nodes[b].MarkContradictedBy(a, draw.now)]
            && h.graph.edges == g.edges[draw.e1 := NewEdge(draw.e1, a, b, Contradicts, g.nodes[a].scopeId, draw.now)]
                                       [draw.e2 := NewEdge(draw.e2, b, a, Contradicts, g.nodes[b].scopeId, draw.now)]
  {}

  lemma SupersessionFramed(g: State, p: NodeId, s: NodeId, draw: Draw)
    requires p in g.nodes && s in g.nodes && p != s
    ensures Framed(g, NodeSuperseded(p, s), draw)
  {
    hide SupersedeNode, MarkContradiction, RemoveEdge, SetNode, NewEdge;
    SupersedeParts(g, p, s, draw);
    hide OnlyAnchors, OnlyNamedEdges;
    var h := SupersedeNode(g, p, s, draw.e1, draw.now).graph;
    var change := Change(map[p := Superseded], []);
    SupersedeAnchors(g, h, p, s, draw.now, change);
    SupersedeNamed(g, h, p, s, draw, change);
  }

  lemma SupersedeAnchors(g: State, h: State, p: NodeId, s: NodeId, now: Time, change: Change)
    requires p in g.nodes && change.transitions == map[p := Superseded]
    requires h.nodes == g.nodes[p := g.nodes[p].MarkSupersededBy(s, now)]
    ensures OnlyAnchors(g, h, NodeSuperseded(p, s), change)
  {}

  lemma SupersedeNamed(g: State, h: State, p: NodeId, s: NodeId, draw: Draw, change: Change)
    requires p in g.nodes && s in g.nodes && change.removed == []
    requires h.edges == g.edges[draw.e1 := NewEdge(draw.e1, p, s, Supersedes, g.nodes[p].scopeId, draw.now)]
    ensures OnlyNamedEdges(g, h, NodeSuperseded(p, s), draw, change)
  {
    hide NewEdge;
    assert h.edges == g.edges + AddedEdges(g, NodeSuperseded(p, s), draw);
  }

  lemma ContradictionFramed(g: State, a: NodeId, b: NodeId, draw: Draw)
    requires a in g.nodes && b in g.nodes && a != b
    ensures Framed(g, NodeContradicted(a, b), draw)
  {
    hide SupersedeNode, MarkContradiction, RemoveEdge, SetNode, NewEdge;
    ContradictParts(g, a, b, draw);
    hide OnlyAnchors, OnlyNamedEdges;
    var h := MarkContradiction(g, a, b, draw.e1, draw.e2, draw.now).graph;
    var change := Change(map[a := Contradicted, b := Contradicted], []);
    ContradictAnchors(g, h, a, b, draw.now, change);
    ContradictNamed(g, h, a, b, draw, change);
  }

  lemma ContradictAnchors(g: State, h: State, a: NodeId, b: NodeId, now: Time, change: Change)
    requires a in g.nodes && b in g.nodes && a != b && change.transitions == map[a := Contradicted, b := Contradicted]
    requires h.nodes == g.nodes[a := g.nodes[a].MarkContradictedBy(b, now)][b := g.nodes[b].MarkContradictedBy(a, now)]
    ensures OnlyAnchors(g, h, NodeContradicted(a, b), change)
  {}

  lemma ContradictNamed(g: State, h: State, a: NodeId, b: NodeId, draw: Draw, change: Change)
    requires a in g.nodes && b in g.nodes && a != b && change.removed == []
    requires h.edges == g.edges[draw.e1 := NewEdge(draw.e1, a, b, Contradicts, g.nodes[a].scopeId, draw.now)]
                               [draw.e2 := NewEdge(draw.e2, b, a, Contradicts, g.nodes[b].scopeId, draw.now)]
    ensures OnlyNamedEdges(g, h, NodeContradicted(a, b), draw, change)
  {
    hide NewEdge;
    assert h.edges == g.edges + AddedEdges(g, NodeContradicted(a, b), draw);
  }

  lemma OtherFramed(g: State, event: ChangeEvent, draw: Draw)
    requires !event.NodeSuperseded? && !event.NodeContradicted? && (event.NodePromoted? ==> event.node in g.nodes)
    ensures Framed(g, event, draw)
  {
    hide SupersedeNode, MarkContradiction, RetainAt;
    match event
    case NodePromoted(n) =>
      hide RemoveEdge;
      assert g.edges + map[] == g.edges;
    case EdgeAdded(_) =>
      hide RemoveEdge;
      assert g.edges + map[] == g.edges;
    case EdgeRemoved(e) =>
      assert e !in g.edges ==> g.edges - {e} == g.edges;
  }

  /** A propagation that goes through changes only its anchors, reports every state change, and touches only the
      edges it names. */
  lemma SettleFrame(g: State, event: ChangeEvent, draw: Draw)
    ensures Settle(g, event, draw).result.Ok? ==> Framed(g, event, draw)
  {
    hide Framed;
    match event
    case NodeSuperseded(p, s) => if p in g.nodes && s in g.nodes && p != s { SupersessionFramed(g, p, s, draw); }
    case NodeContradicted(a, b) => if a in g.nodes && b in g.nodes && a != b { ContradictionFramed(g, a, b, draw); }
    case NodePromoted(n) => if n in g.nodes { OtherFramed(g, event, draw); }
    case _ => OtherFramed(g, event, draw);
  }

  /** A promotion of a candidate makes it canonical from now on and reports it; promoting any other node of the graph
      goes through and changes nothing. */
  lemma PromotionExact(g: State, n: NodeId, draw: Draw)
    requires n in g.nodes
    ensures var r := Settle(g, NodePromoted(n), draw);
            && r.result.Ok? && r.graph.edges == g.edges && r.result.value.removed == []
            && r.graph.outgoing == g.outgoing && r.graph.incoming == g.incoming
            && (g.nodes[n].state == Candidate ==>
                  && OnlyAt(g.nodes, r.graph.nodes, n, g.nodes[n].(state := Canonical, updatedAt := draw.now))
                  && r.result.value.transitions == map[n := Canonical])
            && (g.nodes[n].state != Candidate ==> r.graph == g && r.result.value.transitions == map[])
  {}

  /** A supersession reports its predecessor as Superseded, a contradiction both its nodes as Contradicted, and an
      edge event no transition; a removed edge is reported exactly when it was there. */
  lemma ReportsExact(g: State, event: ChangeEvent, draw: Draw)
    requires Settle(g, event, draw).result.Ok?
    ensures var change := Settle(g, event, draw).result.value;
            match event
            case NodePromoted(_) => true
            case NodeSuperseded(p, _) => change == Change(map[p := Superseded], [])
            case NodeContradicted(a, b) => change == Change(map[a := Contradicted, b := Contradicted], [])
            case EdgeAdded(_) => change == Change(map[], []) && Settle(g, event, draw).graph == g
            case EdgeRemoved(e) => change == Change(map[], if e in g.edges then [e] else [])
  {
    hide SupersedeNode, MarkContradiction;
  }

  lemma SettleCoherent(g: State, event: ChangeEvent, draw: Draw)
    requires Coherent(g) && FreshDraw(g, event, draw)
    ensures Coherent(Settle(g, event, draw).graph)
  {
    hide Coherent;
    match event
    case NodePromoted(n) =>
      if n in g.nodes {
        NodeIdKept(g, n);
        SetNodeCoherent(g, n, g.nodes[n].MarkCanonical(draw.now));
      }
    case NodeSuperseded(p, s) => SupersedeCoherent(g, p, s, draw.e1, draw.now);
    case NodeContradicted(a, b) => ContradictCoherent(g, a, b, draw.e1, draw.e2, draw.now);
    case EdgeAdded(_) =>
    case EdgeRemoved(e) => RemoveEdgeCoherent(g, e);
  }

  lemma NodeIdKept(g: State, n: NodeId)
    requires Coherent(g) && n in g.nodes
    ensures g.nodes[n].id == n
  {}

  /** The report lists only nodes whose state really moved, unless an anchor already was where the event sends it. */
  lemma TransitionsRealIff(g: State, event: ChangeEvent, draw: Draw)
    requires Settle(g, event, draw).result.Ok?
    ensures (forall n :: n in Settle(g, event, draw).result.value.transitions ==>
               n in g.nodes && g.nodes[n].state != Settle(g, event, draw).result.value.transitions[n])
       <==> match event
            case NodeSuperseded(p, _) => p in g.nodes && g.nodes[p].state != Superseded
            case NodeContradicted(a, b) =>
              && a in g.nodes && b in g.nodes
              && g.nodes[a].state != Contradicted && g.nodes[b].state != Contradicted
            case _ => true
  {
    SettleRefusal(g, event, draw);
    hide SupersedeNode, MarkContradiction, RemoveEdge, SetNode;
    var t := Settle(g, event, draw).result.value.transitions;
    match event
    case NodeSuperseded(p, s) => assert p in t;
    case NodeContradicted(a, b) => assert a in t && b in t;
    case _ =>
  }

  /** A second supersession of the same node reports a transition into the state it already has. */
  lemma ReportedWithoutMoving()
    ensures var event := NodeSuperseded(Raw(0), Raw(1));
            var g := Settle(TwoNodes(), event, Draw(Raw(2), Raw(2), 0)).graph;
            var r := Settle(g, event, Draw(Raw(3), Raw(3), 0));
            && Coherent(g) && FreshDraw(g, event, Draw(Raw(3), Raw(3), 0)) && r.result.Ok?
            && Raw(0) in g.nodes && r.result.value.transitions == map[Raw(0) := g.nodes[Raw(0)].state]
  {
    hide Coherent, SupersedeNode;
    var event, first := NodeSuperseded(Raw(0), Raw(1)), Draw(Raw(2), Raw(2), 0);
    SamplesCoherent();
    SettleCoherent(TwoNodes(), event, first);
    SupersedeParts(TwoNodes(), Raw(0), Raw(1), first);
    SupersedeParts(Settle(TwoNodes(), event, first).graph, Raw(0), Raw(1), Draw(Raw(3), Raw(3), 0));
  }

  /** The engine's `propagate`: walk first, then mutate. */
  method PropagateChange(engine: Engine, graph: ConceptGraph, event: ChangeEvent, draw: Draw)
    returns (r: Result<UpdatePropagation, GraphError>)
    modifies graph
    ensures r.Err? ==> graph.View() == old(graph.View())
    ensures Effect(graph.View(),
            if r.Ok? then Ok(Change(r.value.stateTransitions, r.value.removedEdges)) else Err(r.error))
         == Settle(old(graph.View()), event, draw)
    ensures r.Ok? ==> r.value.event == Some(event)
    ensures r.Ok? && !event.IsEdgeEvent() ==>
              && r.value.affected.nodes == AffectedNodes(old(graph.View()), event, engine.maxPropagationDepth)
              && r.value.affected.edges == IncidentIds(old(graph.View()), r.value.affected.nodes)
              && Deepest(ImpactSteps(old(graph.View()), Seeds(old(graph.View()), event)),
                         Seeds(old(graph.View()), event), r.value.affected.nodes, r.value.affected.maxDepthReached)
              && NoDup(r.value.recompute.nodes)
              && NearestFirst(ScopedSteps(old(graph.View()), r.value.affected.nodes), Seeds(old(graph.View()), event),
                              r.value.recompute.nodes)
              && forall v :: v in r.value.recompute.nodes
                   <==> InScope(old(graph.View()), event, engine.maxPropagationDepth, v)
    ensures r.Ok? && event.IsEdgeEvent() ==>
              r.value.affected == AffectedSubgraph({}, {event.edge}, 0) && r.value.recompute.nodes == []
  {
    hide Reached, Ball, ImpactSteps, ScopedSteps, IncidentIds, Deepest, NearestFirst, Unseen, NoDup;
    ghost var g := graph.View();
    SettleRefusal(g, event, draw);
    var affected := engine.AffectedBy(graph, event);
    var recompute := engine.RecomputeFor(graph, event, affected);
    if event.IsEdgeEvent() { NoSeedsNoScope(g, event, affected.nodes, recompute.nodes); }
    var transitions: map<NodeId, NodeState>, removed: seq<EdgeId> := map[], [];
    match event {
      case NodePromoted(n) =>
        if n !in graph.nodes {
          return Err(NodeNotFound(n));
        }
        if graph.nodes[n].state == Candidate {
          graph.nodes := graph.nodes[n := graph.nodes[n].MarkCanonical(draw.now)];
          transitions := transitions[n := Canonical];
        }
      case NodeSuperseded(p, s) =>
        var e := graph.SupersedeNode(p, s, draw.e1, draw.now);
        if e.Err? { return Err(e.error); }
        transitions := transitions[p := Superseded];
      case NodeContradicted(a, b) =>
        var e := graph.MarkContradiction(a, b, draw.e1, draw.e2, draw.now);
        if e.Err? { return Err(e.error); }
        transitions := transitions[a := Contradicted][b := Contradicted];
        assert transitions == map[a := Contradicted, b := Contradicted];
      case EdgeAdded(_) =>
      case EdgeRemoved(edge) =>
        var e := graph.RemoveEdge(edge);
        if e.Ok? { removed := [edge]; }
    }
    assert graph.View() == Settle(g, event, draw).graph;
    assert Settle(g, event, draw).result == Ok(Change(transitions, removed));
    return Ok(UpdatePropagation(Some(event), affected, recompute, transitions, removed));
  }

  lemma NoSeedsNoScope(g: State, event: ChangeEvent, inside: set<NodeId>, nodes: seq<NodeId>)
    requires event.IsEdgeEvent()
    requires forall v :: v in nodes <==> Reached(ScopedSteps(g, inside), Seeds(g, event), v)
    ensures nodes == []
  {
    var steps, seeds := ScopedSteps(g, inside), Seeds(g, event);
    assert event.Anchors() == [];
    assert seeds == {};
    forall k: nat ensures Ball(steps, seeds, k) == {} { NoSeeds(steps, k); }
    assert forall v :: !Reached(steps, seeds, v);
    HasMember(nodes);
  }

  lemma {:induction false} NoSeeds(steps: Steps, k: nat)
    ensures Ball(steps, {}, k) == {}
  {
    if k > 0 { NoSeeds(steps, k - 1); }
  }
}
