/** Memory mirrors disk over every run of the persistent graph, and reload rebuilds it exactly. */
module GraphMirror {
  import opened Basics
  import opened Graph
  import opened GraphPersist

  // ---------------------------------------------------------------- loading a scope

  ghost function ScopedNodes(t: Tables, scope: ScopeId): map<NodeId, ConceptNode> {
    map n | n in t.nodes && t.nodes[n].scope == scope :: t.nodes[n].payload
  }

  ghost function ScopedEdges(t: Tables, scope: ScopeId): map<EdgeId, ConceptEdge> {
    map e | e in t.edges && t.edges[e].scope == scope :: t.edges[e].payload
  }

  /** `ids` lists every key once, in whatever order the `SELECT` breaks ties. */
  ghost predicate ListsKeys<V>(m: map<Uuid, V>, ids: seq<Uuid>) {
    NoDup(ids) && forall id :: id in ids <==> id in m
  }

  /** The payloads of the listed rows. */
  ghost function Payloads<V>(m: map<Uuid, V>, ids: seq<Uuid>): seq<V>
    requires forall i :: 0 <= i < |ids| ==> ids[i] in m
  {
    seq(|ids|, i requires 0 <= i < |ids| => m[ids[i]])
  }

  ghost function Restrict<V>(m: map<Uuid, V>, ids: seq<Uuid>): map<Uuid, V> {
    map id | id in m && id in ids :: m[id]
  }

  function LoadNodes(nodes: seq<ConceptNode>): Effect<nat> {
    if nodes == [] then Effect(EMPTY, Ok(0))
    else
      var r := LoadNodes(nodes[..|nodes| - 1]);
      if r.result.Err? then r
      else
        var a := AddNode(r.graph, nodes[|nodes| - 1]);
        Effect(a.graph, if a.result.Ok? then Ok(r.result.value + 1) else Err(a.result.error))
  }

  function LoadEdges(g: State, edges: seq<ConceptEdge>): Effect<nat> {
    if edges == [] then Effect(g, Ok(0))
    else
      var r := LoadEdges(g, edges[..|edges| - 1]);
      if r.result.Err? then r
      else
        var a := AddEdge(r.graph, edges[|edges| - 1]);
        Effect(a.graph, if a.result.Ok? then Ok(r.result.value + 1) else Err(a.result.error))
  }

  function LoadGraph(nodes: seq<ConceptNode>, edges: seq<ConceptEdge>): Effect<(nat, nat)> {
    var r := LoadNodes(nodes);
    if r.result.Err? then Effect(r.graph, Err(r.result.error))
    else
      var q := LoadEdges(r.graph, edges);
      Effect(q.graph, if q.result.Ok? then Ok((r.result.value, q.result.value)) else Err(q.result.error))
  }

  function NodeKey(n: ConceptNode): NodeId { n.id }

  function EdgeKey(e: ConceptEdge): EdgeId { e.id }

  /** Listed rows sit under their own id, and each is listed once. */
  ghost predicate Keyed<V>(m: map<Uuid, V>, key: V -> Uuid, ids: seq<Uuid>) {
    NoDup(ids) && forall i :: 0 <= i < |ids| ==> ids[i] in m && key(m[ids[i]]) == ids[i]
  }

  lemma KeyedFront<V>(m: map<Uuid, V>, key: V -> Uuid, front: seq<Uuid>, last: Uuid)
    requires Keyed(m, key, front + [last])
    ensures Keyed(m, key, front) && last !in front && last in m && key(m[last]) == last
    ensures (front + [last])[|front|] == last
    ensures Payloads(m, front + [last]) == Payloads(m, front) + [m[last]]
  {
    var all := front + [last];
    assert forall i :: 0 <= i < |front| ==> all[i] == front[i];
    assert all[|front|] == last;
  }

  lemma RestrictStep<V>(m: map<Uuid, V>, front: seq<Uuid>, last: Uuid)
    requires last in m
    ensures Restrict(m, front + [last]) == Restrict(m, front)[last := m[last]]
  {}

  lemma LoadNodesLast(front: seq<ConceptNode>, last: ConceptNode)
    requires LoadNodes(front).result.Ok?
    ensures var r := LoadNodes(front);
            var a := AddNode(r.graph, last);
            LoadNodes(front + [last]) ==
            Effect(a.graph, if a.result.Ok? then Ok(r.result.value + 1) else Err(a.result.error))
  {
    assert (front + [last])[..|front|] == front;
  }

  lemma {:induction false} LoadNodesExact(m: map<NodeId, ConceptNode>, ids: seq<NodeId>)
    requires Keyed(m, NodeKey, ids)
    ensures var r := LoadNodes(Payloads(m, ids));
            && r.result == Ok(|ids|) && r.graph.nodes == Restrict(m, ids) && r.graph.edges == map[]
            && Coherent(r.graph)
  {
    hide Coherent, NoDup;
    if ids == [] {
      EmptyCoherent();
    } else {
      hide LoadNodes, OrDefault;
      var front, last := ids[..|ids| - 1], ids[|ids| - 1];
      assert ids == front + [last];
      KeyedFront(m, NodeKey, front, last);
      LoadNodesExact(m, front);
      var g := LoadNodes(Payloads(m, front)).graph;
      assert last !in g.nodes;
      RestrictStep(m, front, last);
      hide Restrict, Keyed, Payloads;
      assert Payloads(m, ids) == Payloads(m, front) + [m[last]];
      LoadNodesLast(Payloads(m, front), m[last]);
      AddNodeCoherent(g, m[last]);
    }
  }

  ghost predicate Attached(g: State, e: ConceptEdge) {
    e.from in g.nodes && e.to in g.nodes
  }

  /** What loading the edges `ids` into `g` has left. */
  ghost predicate EdgesLoaded(g: State, m: map<EdgeId, ConceptEdge>, ids: seq<EdgeId>, r: Effect<nat>)
    requires Keyed(m, EdgeKey, ids)
  {
    && r.graph.nodes == g.nodes
    && (r.result.Ok? <==> forall i :: 0 <= i < |ids| ==> Attached(g, m[ids[i]]))
    && (r.result.Ok? ==> r.result.value == |ids| && r.graph.edges == Restrict(m, ids))
    && (r.result.Err? ==> r.result.error.DanglingEdge?)
    && (forall e :: e in r.graph.edges ==> e in ids && r.graph.edges[e] == m[e])
  }

  lemma EdgeLoaded(g: State, m: map<EdgeId, ConceptEdge>, ids: seq<EdgeId>, last: EdgeId, r: Effect<nat>)
    requires Keyed(m, EdgeKey, ids) && Keyed(m, EdgeKey, ids + [last]) && EdgesLoaded(g, m, ids, r) && r.result.Ok?
    ensures var a := AddEdge(r.graph, m[(ids + [last])[|ids|]]);
            EdgesLoaded(g, m, ids + [last],
                        Effect(a.graph, if a.result.Ok? then Ok(r.result.value + 1) else Err(a.result.error)))
  {
    var all := ids + [last];
    assert all[|ids|] == last;
    hide NoDup;
    if Attached(g, m[last]) {
      assert Restrict(m, all) == Restrict(m, ids)[last := m[last]];
      assert forall i :: 0 <= i < |ids| ==> all[i] == ids[i];
    } else {
      assert !Attached(g, m[all[|ids|]]);
    }
  }

  /** One more edge after a load that went through, or one that stopped. */
  lemma LoadEdgesLast(g: State, front: seq<ConceptEdge>, last: ConceptEdge)
    ensures var r := LoadEdges(g, front);
            var a := AddEdge(r.graph, last);
            LoadEdges(g, front + [last]) ==
            if r.result.Err? then r
            else Effect(a.graph, if a.result.Ok? then Ok(r.result.value + 1) else Err(a.result.error))
  {
    assert (front + [last])[..|front|] == front;
  }

  lemma NewEdgeFresh(g: State, m: map<EdgeId, ConceptEdge>, front: seq<EdgeId>, last: EdgeId, r: Effect<nat>)
    requires Keyed(m, EdgeKey, front) && EdgesLoaded(g, m, front, r) && last !in front
    ensures last !in r.graph.edges
  {}

  lemma {:induction false} LoadEdgesExact(g: State, m: map<EdgeId, ConceptEdge>, ids: seq<EdgeId>)
    requires Coherent(g) && g.edges == map[] && Keyed(m, EdgeKey, ids)
    ensures EdgesLoaded(g, m, ids, LoadEdges(g, Payloads(m, ids)))
    ensures Coherent(LoadEdges(g, Payloads(m, ids)).graph)
  {
    hide Coherent;
    if ids != [] {
      hide NoDup, LoadEdges, EdgesLoaded, AddEdge;
      var front, last := ids[..|ids| - 1], ids[|ids| - 1];
      assert ids == front + [last];
      KeyedFront(m, EdgeKey, front, last);
      LoadEdgesExact(g, m, front);
      var r := LoadEdges(g, Payloads(m, front));
      hide Payloads, Keyed;
      assert Payloads(m, ids) == Payloads(m, front) + [m[last]];
      LoadEdgesLast(g, Payloads(m, front), m[last]);
      if r.result.Ok? {
        NewEdgeFresh(g, m, front, last, r);
        AddEdgeCoherentIffFresh(r.graph, m[last]);
        EdgeLoaded(g, m, front, last, r);
      } else {
        EdgesStayStuck(g, m, front, last, r);
      }
    }
  }

  lemma EdgesStayStuck(g: State, m: map<EdgeId, ConceptEdge>, ids: seq<EdgeId>, last: EdgeId, r: Effect<nat>)
    requires Keyed(m, EdgeKey, ids) && Keyed(m, EdgeKey, ids + [last]) && EdgesLoaded(g, m, ids, r) && r.result.Err?
    ensures EdgesLoaded(g, m, ids + [last], r)
  {
    hide NoDup;
    var i :| 0 <= i < |ids| && !Attached(g, m[ids[i]]);
    assert (ids + [last])[i] == ids[i];
  }

  /** A scope loads exactly when none of its edges leaves it; then memory is exactly its rows. */
  lemma LoadScopeExact(t: Tables, scope: ScopeId, nodeIds: seq<NodeId>, edgeIds: seq<EdgeId>)
    requires Untampered(t) && ListsKeys(ScopedNodes(t, scope), nodeIds) && ListsKeys(ScopedEdges(t, scope), edgeIds)
    ensures var nodes, edges := ScopedNodes(t, scope), ScopedEdges(t, scope);
            var r := LoadGraph(Payloads(nodes, nodeIds), Payloads(edges, edgeIds));
            && Coherent(r.graph) && r.graph.nodes == nodes
            && (r.result.Ok? <==> forall e :: e in edges ==> edges[e].from in nodes && edges[e].to in nodes)
            && (r.result.Ok? ==> r.graph.edges == edges && r.result.value == (|nodeIds|, |edgeIds|))
            && (r.result.Err? ==> r.result.error.DanglingEdge?)
            && (forall e :: e in r.graph.edges ==> e in edges && r.graph.edges[e] == edges[e])
  {
    var nodes, edges := ScopedNodes(t, scope), ScopedEdges(t, scope);
    hide Coherent, LoadNodes, LoadEdges;
    assert forall i :: 0 <= i < |nodeIds| ==> nodeIds[i] in nodeIds;
    assert forall i :: 0 <= i < |edgeIds| ==> edgeIds[i] in edgeIds;
    LoadNodesExact(nodes, nodeIds);
    assert Restrict(nodes, nodeIds) == nodes && Restrict(edges, edgeIds) == edges;
    var g := LoadNodes(Payloads(nodes, nodeIds)).graph;
    LoadEdgesExact(g, edges, edgeIds);
    var r := LoadEdges(g, Payloads(edges, edgeIds));
    if r.result.Ok? {
      forall e | e in edges ensures Attached(g, edges[e]) {
        var i :| 0 <= i < |edgeIds| && edgeIds[i] == e;
      }
    } else {
      var i :| 0 <= i < |edgeIds| && !Attached(g, edges[edgeIds[i]]);
    }
  }

  /** No node row of `scope` has this id. */
  ghost predicate OutOfScope(t: Tables, scope: ScopeId, n: NodeId) {
    n in t.nodes ==> t.nodes[n].scope != scope
  }

  /** A persisted edge with an end outside its scope makes the scope unloadable. */
  lemma CrossScopeEdgeBlocksLoad(t: Tables, scope: ScopeId, e: EdgeId, nodeIds: seq<NodeId>, edgeIds: seq<EdgeId>)
    requires Untampered(t) && ListsKeys(ScopedNodes(t, scope), nodeIds) && ListsKeys(ScopedEdges(t, scope), edgeIds)
    requires e in t.edges && t.edges[e].scope == scope
    requires OutOfScope(t, scope, t.edges[e].from) || OutOfScope(t, scope, t.edges[e].to)
    ensures LoadGraph(Payloads(ScopedNodes(t, scope), nodeIds), Payloads(ScopedEdges(t, scope), edgeIds)).result.Err?
  {
    hide Coherent;
    LoadScopeExact(t, scope, nodeIds, edgeIds);
    var nodes, edges := ScopedNodes(t, scope), ScopedEdges(t, scope);
    assert e in edges && (edges[e].from !in nodes || edges[e].to !in nodes);
  }

  // ---------------------------------------------------------------- memory mirrors disk

  /** Every node and edge in memory has an equal row. */
  ghost predicate Mirrors(g: State, t: Tables) {
    && (forall n :: n in g.nodes ==> n in t.nodes && t.nodes[n].payload == g.nodes[n])
    && forall e :: e in g.edges ==> e in t.edges && t.edges[e].payload == g.edges[e]
  }

  ghost predicate Settled(st: Store) {
    Coherent(st.graph) && st.db.pending.None? && Untampered(st.db.durable) && Mirrors(st.graph, st.db.durable)
  }

  datatype Call =
    | CallAddNode(node: ConceptNode, ok: bool)
    | CallAddEdge(edge: ConceptEdge, ok: bool)
    | CallSupersede(predecessor: NodeId, successor: NodeId, edgeId: EdgeId, now: Time, io: TxIo)
    | CallSave(id: NodeId, ok: bool)
    | CallLoad(scope: ScopeId, nodeIds: seq<NodeId>, edgeIds: seq<EdgeId>)

  /** Edge ids are fresh, `ROLLBACK` works, and a load lists the rows of its scope; every other statement may fail. */
  ghost predicate Allowed(st: Store, call: Call) {
    match call
    case CallAddEdge(edge, _) => edge.id !in st.graph.edges
    case CallSupersede(_, _, e, _, io) => e !in st.graph.edges && io.rollback
    case CallLoad(scope, nodeIds, edgeIds) =>
      ListsKeys(ScopedNodes(st.db.Visible(), scope), nodeIds) && ListsKeys(ScopedEdges(st.db.Visible(), scope), edgeIds)
    case _ => true
  }

  ghost function Perform(st: Store, call: Call): Store
    requires Allowed(st, call)
  {
    match call
    case CallAddNode(node, ok) => StoreNode(st, node, ok).store
    case CallAddEdge(edge, ok) => StoreEdge(st, edge, ok).store
    case CallSupersede(p, s, e, now, io) => Supersede(st, p, s, e, now, io).store
    case CallSave(id, ok) => SaveNode(st, id, ok).store
    case CallLoad(scope, nodeIds, edgeIds) =>
      var t := st.db.Visible();
      ListsKeysIndexed(ScopedNodes(t, scope), nodeIds);
      ListsKeysIndexed(ScopedEdges(t, scope), edgeIds);
      st.(graph := LoadGraph(Payloads(ScopedNodes(t, scope), nodeIds), Payloads(ScopedEdges(t, scope), edgeIds)).graph)
  }

  lemma ListsKeysIndexed<V>(m: map<Uuid, V>, ids: seq<Uuid>)
    requires ListsKeys(m, ids)
    ensures forall i :: 0 <= i < |ids| ==> ids[i] in m
  {
    assert forall i :: 0 <= i < |ids| ==> ids[i] in ids;
  }

  lemma MirrorsNode(g: State, h: State, t: Tables, n: ConceptNode)
    requires Mirrors(g, t) && Untampered(t)
    requires h.nodes == g.nodes[n.id := n] && h.edges == g.edges
    ensures Mirrors(h, UpsertNode(t, n)) && Untampered(UpsertNode(t, n))
  {}

  lemma MirrorsEdge(g: State, h: State, t: Tables, e: ConceptEdge)
    requires Mirrors(g, t) && Untampered(t)
    requires h.nodes == g.nodes && h.edges == g.edges[e.id := e]
    ensures Mirrors(h, UpsertEdge(t, e)) && Untampered(UpsertEdge(t, e))
  {}

  lemma StoreNodeSettled(st: Store, node: ConceptNode, ok: bool)
    requires Settled(st)
    ensures Settled(StoreNode(st, node, ok).store)
  {
    hide Coherent, Mirrors, Untampered, UpsertNode, OrDefault, RemoveNode;
    if StoreNode(st, node, ok).result.Err? {
      FailedNodeUndone(st, node, ok);
    } else {
      AddNodeCoherent(st.graph, node);
      MirrorsNode(st.graph, AddNode(st.graph, node).graph, st.db.durable, node);
    }
  }

  lemma StoreEdgeSettled(st: Store, edge: ConceptEdge, ok: bool)
    requires Settled(st) && edge.id !in st.graph.edges
    ensures Settled(StoreEdge(st, edge, ok).store)
  {
    hide Coherent, Mirrors, Untampered, UpsertEdge, Push, RemoveEdge;
    if StoreEdge(st, edge, ok).result.Err? {
      FailedEdgeUndoneIff(st, edge, ok);
    } else {
      AddEdgeCoherentIffFresh(st.graph, edge);
      MirrorsEdge(st.graph, AddEdge(st.graph, edge).graph, st.db.durable, edge);
    }
  }

  lemma SaveSettled(st: Store, id: NodeId, ok: bool)
    requires Settled(st)
    ensures Settled(SaveNode(st, id, ok).store)
  {
    if id in st.graph.nodes && ok {
      var node := st.graph.nodes[id];
      assert node.id == id;
      hide Coherent, Mirrors, Untampered, UpsertNode;
      assert st.graph.nodes[id := node] == st.graph.nodes;
      MirrorsNode(st.graph, st.graph, st.db.durable, node);
    }
  }

  lemma SupersedeSettled(st: Store, p: NodeId, s: NodeId, e: EdgeId, now: Time, io: TxIo)
    requires Settled(st) && e !in st.graph.edges && io.rollback
    ensures Settled(Supersede(st, p, s, e, now, io).store)
  {
    SupersedeAtomic(st, p, s, e, now, io);
    hide Supersede;
    var r := Supersede(st, p, s, e, now, io);
    if r.result.Ok? {
      var t, g := st.db.durable, st.graph;
      var marked := g.nodes[p].MarkSupersededBy(s, now);
      var edge := NewEdge(e, p, s, Supersedes, g.nodes[p].scopeId, now);
      assert marked.id == p;
      SupersedeCoherent(g, p, s, e, now);
      hide Coherent, Mirrors, Untampered, UpsertNode, UpsertEdge, Push;
      MirrorsNode(g, SetNode(g, p, marked), t, marked);
      MirrorsEdge(SetNode(g, p, marked), r.store.graph, UpsertNode(t, marked), edge);
    }
  }

  lemma LoadSettled(st: Store, scope: ScopeId, nodeIds: seq<NodeId>, edgeIds: seq<EdgeId>)
    requires Settled(st) && Allowed(st, CallLoad(scope, nodeIds, edgeIds))
    ensures Settled(Perform(st, CallLoad(scope, nodeIds, edgeIds)))
  {
    hide Coherent, LoadGraph;
    LoadScopeExact(st.db.durable, scope, nodeIds, edgeIds);
  }

  lemma PerformSettled(st: Store, call: Call)
    requires Settled(st) && Allowed(st, call)
    ensures Settled(Perform(st, call))
  {
    hide Settled;
    match call
    case CallAddNode(node, ok) => StoreNodeSettled(st, node, ok);
    case CallAddEdge(edge, ok) => StoreEdgeSettled(st, edge, ok);
    case CallSupersede(p, s, e, now, io) => SupersedeSettled(st, p, s, e, now, io);
    case CallSave(id, ok) => SaveSettled(st, id, ok);
    case CallLoad(scope, nodeIds, edgeIds) => LoadSettled(st, scope, nodeIds, edgeIds);
  }

  /** In a run, every write that goes through shows on disk: the node added or saved, the edge added, and both rows
      of a supersession. */
  lemma WritesLand(st: Store, call: Call)
    requires Settled(st) && Allowed(st, call)
    ensures var g, t := st.graph, Perform(st, call).db.durable;
            match call
            case CallAddNode(node, ok) =>
              ok && node.id !in g.nodes ==>
                node.id in t.nodes && t.nodes[node.id].payload == node
            case CallAddEdge(edge, ok) =>
              ok && edge.from in g.nodes && edge.to in g.nodes ==>
                edge.id in t.edges && t.edges[edge.id].payload == edge
            case CallSupersede(p, s, e, now, io) =>
              io.begin && io.node && io.edge && io.commit && p in g.nodes && s in g.nodes && p != s ==>
                && e in t.edges && t.edges[e].from == p && t.edges[e].to == s
                && t.edges[e].payload.relation == Supersedes
                && p in t.nodes && t.nodes[p].payload.state == Superseded && t.nodes[p].payload.supersededBy == Some(s)
            case CallSave(id, ok) => ok && id in g.nodes ==> id in t.nodes && t.nodes[id].payload == g.nodes[id]
            case CallLoad(_, _, _) => t == st.db.durable
  {
    match call
    case CallSupersede(p, s, e, now, io) =>
      hide Coherent, Supersede;
      SupersedeAtomic(st, p, s, e, now, io);
      SupersedeExact(st.graph, p, s, e, now);
      hide SupersedeNode;
      assert p in st.graph.nodes ==> st.graph.nodes[p].id == p by { NodeIdIs(st.graph, p); }
    case CallSave(id, ok) => NodeIdIs(st.graph, id);
    case _ =>
  }

  lemma NodeIdIs(g: State, n: NodeId)
    requires Coherent(g)
    ensures n in g.nodes ==> g.nodes[n].id == n
  {}

  /** A node edited outside the wrapper is mirrored again once it is saved. */
  lemma EditThenSave(st: Store, node: ConceptNode)
    requires Settled(st) && node.id in st.graph.nodes
    ensures Settled(SaveNode(st.(graph := SetNode(st.graph, node.id, node)), node.id, true).store)
  {
    hide Coherent, Mirrors, Untampered, UpsertNode;
    SetNodeCoherent(st.graph, node.id, node);
    MirrorsNode(st.graph, SetNode(st.graph, node.id, node), st.db.durable, node);
  }

  ghost predicate AllowedRun(st: Store, calls: seq<Call>)
    decreases |calls|
  {
    calls == [] || (Allowed(st, calls[0]) && AllowedRun(Perform(st, calls[0]), calls[1..]))
  }

  ghost function PerformAll(st: Store, calls: seq<Call>): Store
    requires AllowedRun(st, calls)
    decreases |calls|
  {
    if calls == [] then st else PerformAll(Perform(st, calls[0]), calls[1..])
  }

  /** Over every run with arbitrary write failures, memory stays coherent and mirrored on disk. */
  lemma {:induction false} RunSettled(st: Store, calls: seq<Call>)
    requires Settled(st) && AllowedRun(st, calls)
    ensures Settled(PerformAll(st, calls))
    decreases |calls|
  {
    hide Settled, Perform, Allowed;
    if calls != [] {
      PerformSettled(st, calls[0]);
      RunSettled(Perform(st, calls[0]), calls[1..]);
    }
  }

  lemma FreshStoreSettled()
    ensures Settled(FRESH_STORE)
  {}

  lemma RunCons(st: Store, call: Call, calls: seq<Call>)
    requires Allowed(st, call) && AllowedRun(Perform(st, call), calls)
    ensures AllowedRun(st, [call] + calls) && PerformAll(st, [call] + calls) == PerformAll(Perform(st, call), calls)
  {
    assert ([call] + calls)[1..] == calls;
  }

  /** The store after two nodes and an edge between them. */
  lemma LinkedStore(a: ConceptNode, b: ConceptNode, edge: ConceptEdge)
    requires a.id != b.id && (edge.from == a.id || edge.from == b.id) && (edge.to == a.id || edge.to == b.id)
    ensures var run := [CallAddNode(a, true), CallAddNode(b, true), CallAddEdge(edge, true)];
            AllowedRun(FRESH_STORE, run) &&
            PerformAll(FRESH_STORE, run).db ==
            Db(Tables(map[a.id := NodeRow(a.scopeId, a.createdAt, a), b.id := NodeRow(b.scopeId, b.createdAt, b)],
                      map[edge.id := EdgeRow(edge.scopeId, edge.from, edge.to, edge.createdAt, edge)]), None)
  {
    var s1 := StoreNode(FRESH_STORE, a, true).store;
    var s2 := StoreNode(s1, b, true).store;
    var s3 := StoreEdge(s2, edge, true).store;
    assert s2.graph.edges == map[] && a.id in s2.graph.nodes && b.id in s2.graph.nodes;
    assert s2.db.durable.nodes ==
           map[a.id := NodeRow(a.scopeId, a.createdAt, a), b.id := NodeRow(b.scopeId, b.createdAt, b)];
    assert s3.db
        == Db(Tables(s2.db.durable.nodes,
            map[edge.id := EdgeRow(edge.scopeId, edge.from, edge.to, edge.createdAt, edge)]), None);
    assert AllowedRun(s3, []) && PerformAll(s3, []) == s3;
    hide AllowedRun, PerformAll, StoreNode, StoreEdge;
    RunCons(s2, CallAddEdge(edge, true), []);
    RunCons(s1, CallAddNode(b, true), [CallAddEdge(edge, true)]);
    RunCons(FRESH_STORE, CallAddNode(a, true), [CallAddNode(b, true)] + [CallAddEdge(edge, true)]);
    assert [CallAddNode(a, true)] + ([CallAddNode(b, true)] + ([CallAddEdge(edge, true)] + []))
        == [CallAddNode(a, true), CallAddNode(b, true), CallAddEdge(edge, true)];
    assert [CallAddEdge(edge, true)] + [] == [CallAddEdge(edge, true)];
  }

  /** Such an edge is accepted and persisted by a plain run of the wrapper, after which its scope no longer loads. */
  lemma CrossScopeRunBlocksLoad(a: ConceptNode, b: ConceptNode, edge: ConceptEdge)
    requires a.id != b.id && a.scopeId != b.scopeId && edge.scopeId == a.scopeId
    requires (edge.from == a.id && edge.to == b.id) || (edge.from == b.id && edge.to == a.id)
    ensures var run := [CallAddNode(a, true), CallAddNode(b, true), CallAddEdge(edge, true)];
            AllowedRun(FRESH_STORE, run) &&
            var t := PerformAll(FRESH_STORE, run).db.Visible();
            && ScopedNodes(t, a.scopeId) == map[a.id := a] && ScopedEdges(t, a.scopeId) == map[edge.id := edge]
            && LoadGraph([a], [edge]).result == Err(DanglingEdge(b.id))
  {
    hide AllowedRun, PerformAll;
    LinkedStore(a, b, edge);
    assert [a][..0] == [] && [edge][..0] == [];
    assert LoadNodes([a]) == Effect(AddNode(EMPTY, a).graph, Ok(1));
    assert LoadEdges(AddNode(EMPTY, a).graph, [edge]).result == Err(DanglingEdge(b.id));
  }
}
