/** Values of the concept graph: nodes, edges, the four maps, and what each mutation does to them. */
module Graph {
  import opened Basics

  type NodeId = Uuid
  type EdgeId = Uuid

  datatype NodeState = Candidate | Canonical | Superseded | Contradicted | Deleted

  datatype RelationType = IsA | PartOf | DecidedBy | Supersedes | Contradicts | DerivedFrom | AssignedTo

  datatype ConceptNode = ConceptNode(
    id: NodeId, caption: string, definition: string, scopeId: ScopeId, state: NodeState,
    supersededBy: Option<NodeId>, createdAt: Time, updatedAt: Time, metadata: string)
  {
    function MarkCanonical(now: Time): ConceptNode {
      this.(state := Canonical, updatedAt := now)
    }
    function MarkSupersededBy(successor: NodeId, now: Time): ConceptNode {
      this.(state := Superseded, supersededBy := Some(successor), updatedAt := now)
    }
    function MarkContradictedBy(other: NodeId, now: Time): ConceptNode {
      this.(state := Contradicted, supersededBy := Some(other), updatedAt := now)
    }
  }

  datatype ConceptEdge = ConceptEdge(
    id: EdgeId, from: NodeId, to: NodeId, relation: RelationType, scopeId: ScopeId,
    createdAt: Time, metadata: string)

  /** `ConceptEdge::new`; the random id and the clock are parameters. */
  function NewEdge(id: EdgeId, from: NodeId, to: NodeId, relation: RelationType, scope: ScopeId, now: Time)
    : ConceptEdge
  {
    ConceptEdge(id, from, to, relation, scope, now, "null")
  }

  datatype GraphError =
    | NodeNotFound(id: Uuid) | EdgeNotFound(id: Uuid) | DuplicateNode(id: Uuid) | DanglingEdge(id: Uuid)
    | SelfSupersession(id: Uuid) | SelfContradiction(id: Uuid) | Persistence | Sqlite

  type Adjacency = map<NodeId, seq<EdgeId>>

  datatype State = State(
    nodes: map<NodeId, ConceptNode>, edges: map<EdgeId, ConceptEdge>,
    outgoing: Adjacency, incoming: Adjacency)

  datatype Effect<+T> = Effect(graph: State, result: Result<T, GraphError>)

  const EMPTY := State(map[], map[], map[], map[])

  // ---------------------------------------------------------------- adjacency lists

  function List(lists: Adjacency, n: NodeId): seq<EdgeId> {
    if n in lists then lists[n] else []
  }

  function Push(lists: Adjacency, n: NodeId, e: EdgeId): Adjacency {
    lists[n := List(lists, n) + [e]]
  }

  function OrDefault(lists: Adjacency, n: NodeId): Adjacency {
    lists[n := List(lists, n)]
  }

  function RetainAt(lists: Adjacency, n: NodeId, e: EdgeId): Adjacency {
    if n in lists then lists[n := Prune(lists[n], {e})] else lists
  }

  // ---------------------------------------------------------------- mutations

  function AddNode(g: State, node: ConceptNode): Effect<NodeId> {
    if node.id in g.nodes then Effect(g, Err(DuplicateNode(node.id)))
    else
      Effect(State(g.nodes[node.id := node], g.edges,
                   OrDefault(g.outgoing, node.id), OrDefault(g.incoming, node.id)),
             Ok(node.id))
  }

  function AddEdge(g: State, edge: ConceptEdge): Effect<EdgeId> {
    if edge.from !in g.nodes then Effect(g, Err(DanglingEdge(edge.from)))
    else if edge.to !in g.nodes then Effect(g, Err(DanglingEdge(edge.to)))
    else
      Effect(State(g.nodes, g.edges[edge.id := edge],
                   Push(g.outgoing, edge.from, edge.id), Push(g.incoming, edge.to, edge.id)),
             Ok(edge.id))
  }

  /** The ids listed at `id` in either direction. */
  function Doomed(g: State, id: NodeId): set<EdgeId> {
    (set e | e in List(g.outgoing, id)) + (set e | e in List(g.incoming, id))
  }

  function Leaving(g: State, among: set<EdgeId>, n: NodeId): set<EdgeId> {
    set e | e in among && e in g.edges && g.edges[e].from == n
  }

  function Entering(g: State, among: set<EdgeId>, n: NodeId): set<EdgeId> {
    set e | e in among && e in g.edges && g.edges[e].to == n
  }

  /** Drop the edges `gone`, and node `id` with its two lists. */
  function Without(g: State, id: NodeId, gone: set<EdgeId>): State {
    State(g.nodes - {id}, g.edges - gone,
          map n | n in g.outgoing && n != id :: Prune(g.outgoing[n], Leaving(g, gone, n)),
          map n | n in g.incoming && n != id :: Prune(g.incoming[n], Entering(g, gone, n)))
  }

  function RemoveNode(g: State, id: NodeId): Effect<ConceptNode> {
    if id !in g.nodes then Effect(g, Err(NodeNotFound(id)))
    else Effect(Without(g, id, Doomed(g, id)), Ok(g.nodes[id]))
  }

  function RemoveEdge(g: State, id: EdgeId): Effect<ConceptEdge> {
    if id !in g.edges then Effect(g, Err(EdgeNotFound(id)))
    else
      var edge := g.edges[id];
      Effect(State(g.nodes, g.edges - {id}, RetainAt(g.outgoing, edge.from, id), RetainAt(g.incoming, edge.to, id)),
             Ok(edge))
  }

  /** A write through `get_node_mut` that keeps the id. */
  function SetNode(g: State, id: NodeId, node: ConceptNode): State {
    g.(nodes := g.nodes[id := node])
  }

  function SupersedeNode(g: State, predecessor: NodeId, successor: NodeId, edgeId: EdgeId, now: Time): Effect<EdgeId> {
    if predecessor == successor then Effect(g, Err(SelfSupersession(predecessor)))
    else if successor !in g.nodes then Effect(g, Err(NodeNotFound(successor)))
    else if predecessor !in g.nodes then Effect(g, Err(NodeNotFound(predecessor)))
    else
      var pred := g.nodes[predecessor];
      AddEdge(SetNode(g, predecessor, pred.MarkSupersededBy(successor, now)),
              NewEdge(edgeId, predecessor, successor, Supersedes, pred.scopeId, now))
  }

  /** Both nodes stamped `Contradicted`, pointing at each other. */
  function Contradicting(g: State, a: NodeId, b: NodeId, now: Time): State
    requires a in g.nodes && b in g.nodes && a != b
  {
    SetNode(SetNode(g, a, g.nodes[a].MarkContradictedBy(b, now)), b, g.nodes[b].MarkContradictedBy(a, now))
  }

  /** Both endpoints are checked first, so neither edge insertion can be refused. */
  function MarkContradiction(g: State, a: NodeId, b: NodeId, e1: EdgeId, e2: EdgeId, now: Time)
    : Effect<(EdgeId, EdgeId)>
  {
    if a == b then Effect(g, Err(SelfContradiction(a)))
    else if a !in g.nodes then Effect(g, Err(NodeNotFound(a)))
    else if b !in g.nodes then Effect(g, Err(NodeNotFound(b)))
    else
      var g2 := Contradicting(g, a, b, now);
      var r1 := AddEdge(g2, NewEdge(e1, a, b, Contradicts, g.nodes[a].scopeId, now));
      var r2 := AddEdge(r1.graph, NewEdge(e2, b, a, Contradicts, g.nodes[b].scopeId, now));
      Effect(r2.graph, Ok((e1, e2)))
  }

  // ---------------------------------------------------------------- what each mutation does, field by field

  /** `after` holds `v` under `k`, and otherwise exactly what `before` held. */
  ghost predicate OnlyAt<K, V>(before: map<K, V>, after: map<K, V>, k: K, v: V) {
    && after.Keys == before.Keys + {k} && after[k] == v
    && forall x :: x in before && x != k ==> after[x] == before[x]
  }

  /** An insert is refused exactly for a node id in use; it touches no edge, and lists that were left under the id
      stay. */
  lemma AddNodeExact(g: State, node: ConceptNode)
    ensures var r := AddNode(g, node);
            if node.id in g.nodes then r == Effect(g, Err(DuplicateNode(node.id)))
            else
              && r.result == Ok(node.id) && OnlyAt(g.nodes, r.graph.nodes, node.id, node) && r.graph.edges == g.edges
              && OnlyAt(g.outgoing, r.graph.outgoing, node.id,
                  if node.id in g.outgoing then g.outgoing[node.id] else [])
              && OnlyAt(g.incoming, r.graph.incoming, node.id,
                  if node.id in g.incoming then g.incoming[node.id] else [])
  {}

  /** An edge is refused exactly for a missing end, its source being looked at first; it is listed last at both ends. */
  lemma AddEdgeExact(g: State, edge: ConceptEdge)
    ensures var r := AddEdge(g, edge);
            && (r.result.Ok? <==> edge.from in g.nodes && edge.to in g.nodes)
            && (r.result == Err(DanglingEdge(edge.from)) <== edge.from !in g.nodes)
            && (r.result == Err(DanglingEdge(edge.to)) <== edge.from in g.nodes && edge.to !in g.nodes)
            && (r.result.Err? ==> r.graph == g)
            && (r.result.Ok? ==>
                  && r.result.value == edge.id && r.graph.nodes == g.nodes
                  && OnlyAt(g.edges, r.graph.edges, edge.id, edge)
                  && OnlyAt(g.outgoing, r.graph.outgoing, edge.from,
                            (if edge.from in g.outgoing then g.outgoing[edge.from] else []) + [edge.id])
                  && OnlyAt(g.incoming, r.graph.incoming, edge.to,
                            (if edge.to in g.incoming then g.incoming[edge.to] else []) + [edge.id]))
  {}

  /** A removal answers with what was there, or that there was nothing. */
  lemma RemovalAnswers(g: State, n: NodeId, e: EdgeId)
    ensures RemoveNode(g, n).result == if n in g.nodes then Ok(g.nodes[n]) else Err(NodeNotFound(n))
    ensures RemoveEdge(g, e).result == if e in g.edges then Ok(g.edges[e]) else Err(EdgeNotFound(e))
    ensures RemoveEdge(g, e).graph.nodes == g.nodes
    ensures RemoveEdge(g, e).graph.edges.Keys == g.edges.Keys - {e}
    ensures forall x :: x in g.edges && x != e ==> RemoveEdge(g, e).graph.edges[x] == g.edges[x]
  {}

  /** A supersession is refused for a repeated or missing node, in that order and the successor first. Otherwise the
      predecessor, and no other node, is Superseded by the successor from now on, and one supersedes edge from it to
      the successor is new. */
  lemma SupersedeExact(g: State, p: NodeId, s: NodeId, e: EdgeId, now: Time)
    ensures var r := SupersedeNode(g, p, s, e, now);
            && (r.result.Ok? <==> p != s && p in g.nodes && s in g.nodes)
            && (r.result.Err? ==> r.graph == g)
            && (p == s ==> r.result == Err(SelfSupersession(p)))
            && (p != s && s !in g.nodes ==> r.result == Err(NodeNotFound(s)))
            && (p != s && s in g.nodes && p !in g.nodes ==> r.result == Err(NodeNotFound(p)))
            && (r.result.Ok? ==>
                  && r.result.value == e
                  && OnlyAt(g.nodes, r.graph.nodes, p,
                            g.nodes[p].(state := Superseded, supersededBy := Some(s), updatedAt := now))
                  && OnlyAt(g.edges, r.graph.edges, e,
                            ConceptEdge(id := e, from := p, to := s, relation := Supersedes,
                                        scopeId := g.nodes[p].scopeId, createdAt := now, metadata := "null")))
  {}

  /** A contradiction is refused for a repeated or missing node. Otherwise the two nodes, and no other, are
      Contradicted and point at each other, and one contradicts edge each way is new. */
  lemma ContradictExact(g: State, a: NodeId, b: NodeId, e1: EdgeId, e2: EdgeId, now: Time)
    ensures var r := MarkContradiction(g, a, b, e1, e2, now);
            && (r.result.Ok? <==> a != b && a in g.nodes && b in g.nodes)
            && (r.result.Err? ==> r.graph == g)
            && (a == b ==> r.result == Err(SelfContradiction(a)))
            && (a != b && a !in g.nodes ==> r.result == Err(NodeNotFound(a)))
            && (a != b && a in g.nodes && b !in g.nodes ==> r.result == Err(NodeNotFound(b)))
            && (r.result.Ok? ==>
                  && r.result.value == (e1, e2)
                  && r.graph.nodes.Keys == g.nodes.Keys
                  && r.graph.nodes[a] == g.nodes[a].(state := Contradicted, supersededBy := Some(b), updatedAt := now)
                  && r.graph.nodes[b] == g.nodes[b].(state := Contradicted, supersededBy := Some(a), updatedAt := now)
                  && (forall n :: n in g.nodes && n != a && n != b ==> r.graph.nodes[n] == g.nodes[n])
                  && r.graph.edges.Keys == g.edges.Keys + {e1, e2}
                  && r.graph.edges[e2] == ConceptEdge(e2, b, a, Contradicts, g.nodes[b].scopeId, now, "null")
                  && (e1 != e2 ==>
                        r.graph.edges[e1] == ConceptEdge(e1, a, b, Contradicts, g.nodes[a].scopeId, now, "null"))
                  && (forall e :: e in g.edges && e != e1 && e != e2 ==> r.graph.edges[e] == g.edges[e]))
  {
    hide Push;
  }

  // ---------------------------------------------------------------- coherence

  /** `list` names, without repeats, exactly the edges accepted by `here`. */
  ghost predicate Lists(list: seq<EdgeId>, edges: set<EdgeId>) {
    NoDup(list) && forall e :: e in list <==> e in edges
  }

  /** The two adjacency lists of `n` name exactly the edges that leave and that enter it. */
  ghost predicate ListedAt(g: State, n: NodeId) {
    && n in g.outgoing && Lists(g.outgoing[n], Leaving(g, g.edges.Keys, n))
    && n in g.incoming && Lists(g.incoming[n], Entering(g, g.edges.Keys, n))
  }

  /** Every node and edge sits under its own id and no edge dangles. */
  ghost predicate Anchored(g: State) {
    && (forall n :: n in g.nodes ==> g.nodes[n].id == n)
    && (forall e :: e in g.edges ==> g.edges[e].id == e && g.edges[e].from in g.nodes && g.edges[e].to in g.nodes)
  }

  /** Referential integrity of the four maps. */
  ghost predicate Coherent(g: State) {
    && g.outgoing.Keys == g.nodes.Keys
    && g.incoming.Keys == g.nodes.Keys
    && Anchored(g)
    && forall n :: n in g.nodes ==> ListedAt(g, n)
  }

  lemma EmptyCoherent()
    ensures Coherent(EMPTY)
  {}

  /** A node keeps its lists when neither they nor the edge map change. */
  lemma SameLists(g: State, h: State, n: NodeId)
    requires ListedAt(g, n) && n in h.outgoing && n in h.incoming
    requires h.edges == g.edges && h.outgoing[n] == g.outgoing[n] && h.incoming[n] == g.incoming[n]
    ensures ListedAt(h, n)
  {
    assert Leaving(h, h.edges.Keys, n) == Leaving(g, g.edges.Keys, n);
    assert Entering(h, h.edges.Keys, n) == Entering(g, g.edges.Keys, n);
  }

  lemma AddNodeCoherent(g: State, node: ConceptNode)
    requires Coherent(g)
    ensures Coherent(AddNode(g, node).graph)
  {
    var h := AddNode(g, node).graph;
    forall n | n in h.nodes ensures ListedAt(h, n) {
      if n in g.nodes { SameLists(g, h, n); }
    }
  }

  lemma ListsPush(list: seq<EdgeId>, edges: set<EdgeId>, e: EdgeId)
    requires Lists(list, edges) && e !in edges
    ensures Lists(list + [e], edges + {e})
  {}

  lemma ListsPrune(list: seq<EdgeId>, edges: set<EdgeId>, gone: set<EdgeId>)
    requires Lists(list, edges)
    ensures Lists(Prune(list, gone), edges - gone)
  {
    PruneMembers(list, gone);
  }

  lemma NewEdgeAt(g: State, h: State, edge: ConceptEdge, n: NodeId)
    requires edge.id !in g.edges && h.edges == g.edges[edge.id := edge]
    ensures Leaving(h, h.edges.Keys, n) == Leaving(g, g.edges.Keys, n) + if n == edge.from then {edge.id} else {}
    ensures Entering(h, h.edges.Keys, n) == Entering(g, g.edges.Keys, n) + if n == edge.to then {edge.id} else {}
  {}

  lemma AddEdgeListed(g: State, edge: ConceptEdge, n: NodeId)
    requires Coherent(g) && edge.from in g.nodes && edge.to in g.nodes && edge.id !in g.edges && n in g.nodes
    ensures ListedAt(AddEdge(g, edge).graph, n)
  {
    assert ListedAt(g, n);
    var out, into := Leaving(g, g.edges.Keys, n), Entering(g, g.edges.Keys, n);
    assert edge.id !in out && edge.id !in into;
    hide Lists, Leaving, Entering;
    NewEdgeAt(g, AddEdge(g, edge).graph, edge, n);
    assert out + {} == out && into + {} == into;
    if n == edge.from { ListsPush(g.outgoing[n], out, edge.id); }
    if n == edge.to { ListsPush(g.incoming[n], into, edge.id); }
  }

  lemma RepeatedIdIncoherent(g: State, edge: ConceptEdge)
    requires Coherent(g) && edge.from in g.nodes && edge.to in g.nodes && edge.id in g.edges
    ensures !Coherent(AddEdge(g, edge).graph)
  {
    var h := AddEdge(g, edge).graph;
    var was := g.edges[edge.id].from;
    assert ListedAt(g, was);
    assert edge.id in Leaving(g, g.edges.Keys, was);
    var i :| 0 <= i < |g.outgoing[was]| && g.outgoing[was][i] == edge.id;
    if was == edge.from {
      assert h.outgoing[was][i] == h.outgoing[was][|g.outgoing[was]|];
    } else {
      assert edge.id in h.outgoing[was] && edge.id !in Leaving(h, h.edges.Keys, was);
    }
    assert !ListedAt(h, was);
  }

  /** The code accepts a repeated edge id; coherence survives exactly when the id was unused. */
  lemma AddEdgeCoherentIffFresh(g: State, edge: ConceptEdge)
    requires Coherent(g)
    ensures Coherent(AddEdge(g, edge).graph)
       <==> (edge.from in g.nodes && edge.to in g.nodes ==> edge.id !in g.edges)
  {
    hide ListedAt;
    if edge.from in g.nodes && edge.to in g.nodes {
      if edge.id !in g.edges {
        forall n | n in g.nodes { AddEdgeListed(g, edge, n); }
      } else {
        RepeatedIdIncoherent(g, edge);
      }
    }
  }

  lemma WithoutListed(g: State, id: NodeId, gone: set<EdgeId>, n: NodeId)
    requires n != id && ListedAt(g, n)
    ensures ListedAt(Without(g, id, gone), n)
  {
    var h := Without(g, id, gone);
    var out, into := Leaving(g, g.edges.Keys, n), Entering(g, g.edges.Keys, n);
    assert Leaving(h, h.edges.Keys, n) == out - Leaving(g, gone, n);
    assert Entering(h, h.edges.Keys, n) == into - Entering(g, gone, n);
    ListsPrune(g.outgoing[n], out, Leaving(g, gone, n));
    ListsPrune(g.incoming[n], into, Entering(g, gone, n));
  }

  lemma DoomedIsIncident(g: State, id: NodeId)
    requires Coherent(g) && id in g.nodes
    ensures Doomed(g, id) == set e | e in g.edges && (g.edges[e].from == id || g.edges[e].to == id)
  {
    assert ListedAt(g, id);
    assert forall e :: e in g.outgoing[id] <==> e in Leaving(g, g.edges.Keys, id);
    assert forall e :: e in g.incoming[id] <==> e in Entering(g, g.edges.Keys, id);
  }

  /** Removing a node drops exactly the incident edges, self-loops included, and stays coherent. */
  lemma RemoveNodeDropsIncident(g: State, id: NodeId)
    requires Coherent(g) && id in g.nodes
    ensures var h := RemoveNode(g, id).graph;
            && Coherent(h)
            && h.nodes == g.nodes - {id}
            && h.edges == map e | e in g.edges && g.edges[e].from != id && g.edges[e].to != id :: g.edges[e]
  {
    hide ListedAt, Prune, Doomed, Leaving, Entering;
    DoomedIsIncident(g, id);
    forall n | n in g.nodes && n != id ensures ListedAt(Without(g, id, Doomed(g, id)), n) {
      WithoutListed(g, id, Doomed(g, id), n);
    }
  }

  lemma RemoveEdgeListed(g: State, id: EdgeId, n: NodeId)
    requires Coherent(g) && id in g.edges && n in g.nodes
    ensures ListedAt(RemoveEdge(g, id).graph, n)
  {
    var h := RemoveEdge(g, id).graph;
    assert ListedAt(g, n);
    var out, into := Leaving(g, g.edges.Keys, n), Entering(g, g.edges.Keys, n);
    assert Leaving(h, h.edges.Keys, n) == out - {id};
    assert Entering(h, h.edges.Keys, n) == into - {id};
    ListsPrune(g.outgoing[n], out, {id});
    ListsPrune(g.incoming[n], into, {id});
    assert n != g.edges[id].from ==> out - {id} == out;
    assert n != g.edges[id].to ==> into - {id} == into;
  }

  lemma RemoveEdgeCoherent(g: State, id: EdgeId)
    requires Coherent(g)
    ensures Coherent(RemoveEdge(g, id).graph)
  {
    if id in g.edges {
      forall n | n in g.nodes { RemoveEdgeListed(g, id, n); }
    }
  }

  lemma SetNodeCoherent(g: State, id: NodeId, node: ConceptNode)
    requires Coherent(g) && id in g.nodes && node.id == id
    ensures Coherent(SetNode(g, id, node))
  {
    var h := SetNode(g, id, node);
    forall n | n in h.nodes ensures ListedAt(h, n) { SameLists(g, h, n); }
  }

  // ---------------------------------------------------------------- undo

  lemma PushThenRetain(lists: Adjacency, n: NodeId, e: EdgeId)
    requires n in lists && e !in lists[n]
    ensures RetainAt(Push(lists, n, e), n, e) == lists
  {
    PrunePushed(lists[n], e);
  }

  /** A node that was just added has empty lists, so removing it only takes its own entries away. */
  lemma DefaultThenDrop(lists: Adjacency, id: NodeId, dropped: Adjacency)
    requires id !in lists && dropped.Keys == lists.Keys
    requires forall n :: n in lists ==> dropped[n] == Prune(OrDefault(lists, id)[n], {})
    ensures dropped == lists
  {
    forall n | n in lists ensures dropped[n] == lists[n] { PruneNothing(lists[n], {}); }
  }

  lemma AddThenRemoveNode(g: State, node: ConceptNode)
    requires g.outgoing.Keys == g.nodes.Keys == g.incoming.Keys && node.id !in g.nodes
    ensures RemoveNode(AddNode(g, node).graph, node.id) == Effect(g, Ok(node))
  {
    hide Prune;
    var h := AddNode(g, node).graph;
    assert Doomed(h, node.id) == {};
    var back := Without(h, node.id, {});
    assert back.nodes == g.nodes && back.edges == g.edges;
    assert back.outgoing == g.outgoing by {
      forall n | n in g.outgoing ensures back.outgoing[n] == Prune(OrDefault(g.outgoing, node.id)[n], {}) {
        assert Leaving(h, {}, n) == {};
      }
      DefaultThenDrop(g.outgoing, node.id, back.outgoing);
    }
    assert back.incoming == g.incoming by {
      forall n | n in g.incoming ensures back.incoming[n] == Prune(OrDefault(g.incoming, node.id)[n], {}) {
        assert Entering(h, {}, n) == {};
      }
      DefaultThenDrop(g.incoming, node.id, back.incoming);
    }
  }

  /** Adding an edge and removing it again restores the graph exactly when the id was unused. */
  lemma AddThenRemoveEdgeIffFresh(g: State, edge: ConceptEdge)
    requires Coherent(g) && edge.from in g.nodes && edge.to in g.nodes
    ensures RemoveEdge(AddEdge(g, edge).graph, edge.id).graph == g <==> edge.id !in g.edges
  {
    if edge.id !in g.edges {
      assert ListedAt(g, edge.from) && ListedAt(g, edge.to);
      PushThenRetain(g.outgoing, edge.from, edge.id);
      PushThenRetain(g.incoming, edge.to, edge.id);
      assert g.edges[edge.id := edge] - {edge.id} == g.edges;
    } else {
      assert edge.id !in RemoveEdge(AddEdge(g, edge).graph, edge.id).graph.edges;
    }
  }

  function SampleNode(id: nat, scope: nat): ConceptNode {
    ConceptNode(Raw(id), "", "", Raw(scope), Canonical, None, 0, 0, "null")
  }

  /** Two nodes without edges. */
  function TwoNodes(): State {
    AddNode(AddNode(EMPTY, SampleNode(0, 9)).graph, SampleNode(1, 9)).graph
  }

  const SAMPLE_EDGE := NewEdge(Raw(7), Raw(0), Raw(1), IsA, Raw(9), 0)

  lemma SamplesCoherent()
    ensures Coherent(TwoNodes()) && Raw(0) in TwoNodes().nodes && Raw(1) in TwoNodes().nodes
            && TwoNodes().edges == map[]
    ensures AddEdge(TwoNodes(), SAMPLE_EDGE).result.Ok? && Coherent(AddEdge(TwoNodes(), SAMPLE_EDGE).graph)
  {
    hide Coherent;
    EmptyCoherent();
    AddNodeCoherent(EMPTY, SampleNode(0, 9));
    AddNodeCoherent(AddNode(EMPTY, SampleNode(0, 9)).graph, SampleNode(1, 9));
    AddEdgeCoherentIffFresh(TwoNodes(), SAMPLE_EDGE);
  }

  /** The double insert that the type's documentation rules out: one id, inserted twice. */
  lemma RepeatedEdgeIdBreaksCoherence()
    ensures var g := AddEdge(TwoNodes(), SAMPLE_EDGE).graph;
            Coherent(g) && AddEdge(g, SAMPLE_EDGE).result.Ok? && !Coherent(AddEdge(g, SAMPLE_EDGE).graph)
  {
    hide Coherent;
    SamplesCoherent();
    AddEdgeCoherentIffFresh(AddEdge(TwoNodes(), SAMPLE_EDGE).graph, SAMPLE_EDGE);
  }

  // ---------------------------------------------------------------- whole runs

  datatype Op =
    | OpAddNode(node: ConceptNode)
    | OpAddEdge(edge: ConceptEdge)
    | OpRemoveNode(target: NodeId)
    | OpRemoveEdge(link: EdgeId)
    | OpSupersede(predecessor: NodeId, successor: NodeId, edgeId: EdgeId, now: Time)
    | OpContradict(a: NodeId, b: NodeId, e1: EdgeId, e2: EdgeId, now: Time)

  datatype Status = Done | Failed(error: GraphError)

  function Outcome<T>(r: Result<T, GraphError>): Status {
    if r.Ok? then Done else Failed(r.error)
  }

  function Apply(g: State, op: Op): (State, Status) {
    match op
    case OpAddNode(node) => var r := AddNode(g, node); (r.graph, Outcome(r.result))
    case OpAddEdge(edge) => var r := AddEdge(g, edge); (r.graph, Outcome(r.result))
    case OpRemoveNode(n) => var r := RemoveNode(g, n); (r.graph, Outcome(r.result))
    case OpRemoveEdge(e) => var r := RemoveEdge(g, e); (r.graph, Outcome(r.result))
    case OpSupersede(p, s, e, now) => var r := SupersedeNode(g, p, s, e, now); (r.graph, Outcome(r.result))
    case OpContradict(a, b, e1, e2, now) =>
      var r := MarkContradiction(g, a, b, e1, e2, now);
      (r.graph, Outcome(r.result))
  }

  /** The edge ids that `op` brings in are unused. */
  predicate FreshIds(g: State, op: Op) {
    match op
    case OpAddEdge(edge) => edge.id !in g.edges
    case OpSupersede(_, _, e, _) => e !in g.edges
    case OpContradict(_, _, e1, e2, _) => e1 !in g.edges && e2 !in g.edges && e1 != e2
    case _ => true
  }

  function Run(g: State, ops: seq<Op>): State
    decreases |ops|
  {
    if ops == [] then g else Run(Apply(g, ops[0]).0, ops[1..])
  }

  predicate FreshRun(g: State, ops: seq<Op>)
    decreases |ops|
  {
    ops == [] || (FreshIds(g, ops[0]) && FreshRun(Apply(g, ops[0]).0, ops[1..]))
  }

  lemma SupersedeCoherent(g: State, p: NodeId, s: NodeId, e: EdgeId, now: Time)
    requires Coherent(g) && e !in g.edges
    ensures Coherent(SupersedeNode(g, p, s, e, now).graph)
  {
    if p != s && p in g.nodes && s in g.nodes {
      var g1 := SetNode(g, p, g.nodes[p].MarkSupersededBy(s, now));
      SetNodeCoherent(g, p, g.nodes[p].MarkSupersededBy(s, now));
      AddEdgeCoherentIffFresh(g1, NewEdge(e, p, s, Supersedes, g.nodes[p].scopeId, now));
    }
  }

  lemma ContradictingCoherent(g: State, a: NodeId, b: NodeId, now: Time)
    requires Coherent(g) && a in g.nodes && b in g.nodes && a != b
    ensures Coherent(Contradicting(g, a, b, now))
  {
    var na := g.nodes[a].MarkContradictedBy(b, now);
    SetNodeCoherent(g, a, na);
    SetNodeCoherent(SetNode(g, a, na), b, g.nodes[b].MarkContradictedBy(a, now));
  }

  lemma ContradictCoherent(g: State, a: NodeId, b: NodeId, e1: EdgeId, e2: EdgeId, now: Time)
    requires Coherent(g) && e1 !in g.edges && e2 !in g.edges && e1 != e2
    ensures Coherent(MarkContradiction(g, a, b, e1, e2, now).graph)
  {
    if a != b && a in g.nodes && b in g.nodes {
      hide Coherent;
      var g2 := Contradicting(g, a, b, now);
      ContradictingCoherent(g, a, b, now);
      var edge1 := NewEdge(e1, a, b, Contradicts, g.nodes[a].scopeId, now);
      AddEdgeCoherentIffFresh(g2, edge1);
      AddEdgeCoherentIffFresh(AddEdge(g2, edge1).graph, NewEdge(e2, b, a, Contradicts, g.nodes[b].scopeId, now));
    }
  }

  /** One mutation: a refused one changes nothing, a fresh one keeps the graph coherent. */
  lemma ApplyCoherent(g: State, op: Op)
    requires Coherent(g)
    ensures Apply(g, op).1.Failed? ==> Apply(g, op).0 == g
    ensures FreshIds(g, op) ==> Coherent(Apply(g, op).0)
  {
    hide Coherent;
    match op
    case OpAddNode(node) => AddNodeCoherent(g, node);
    case OpAddEdge(edge) => AddEdgeCoherentIffFresh(g, edge);
    case OpRemoveNode(n) => if n in g.nodes { RemoveNodeDropsIncident(g, n); }
    case OpRemoveEdge(e) => RemoveEdgeCoherent(g, e);
    case OpSupersede(p, s, e, now) => if e !in g.edges { SupersedeCoherent(g, p, s, e, now); }
    case OpContradict(a, b, e1, e2, now) =>
      if FreshIds(g, op) { ContradictCoherent(g, a, b, e1, e2, now); }
  }

  /** Every run of mutations with fresh edge ids keeps the graph coherent. */
  lemma {:induction false} RunCoherent(g: State, ops: seq<Op>)
    requires Coherent(g) && FreshRun(g, ops)
    ensures Coherent(Run(g, ops))
    decreases |ops|
  {
    if ops != [] {
      ApplyCoherent(g, ops[0]);
      RunCoherent(Apply(g, ops[0]).0, ops[1..]);
    }
  }
}
