/** The persistent concept graph: every typed mutation is mirrored to two tables, or undone. */
module GraphPersist {
  import opened Basics
  import opened Graph
  import opened ConceptGraphs

  /** A row of `concept_nodes`; decrypting the payload gives the node back. */
  datatype NodeRow = NodeRow(scope: ScopeId, createdAt: Time, payload: ConceptNode)

  /** A row of `concept_edges`. */
  datatype EdgeRow = EdgeRow(scope: ScopeId, from: NodeId, to: NodeId, createdAt: Time, payload: ConceptEdge)

  datatype Tables = Tables(nodes: map<NodeId, NodeRow>, edges: map<EdgeId, EdgeRow>)

  /** The upsert keeps the creation column of an existing row. */
  function UpsertNode(t: Tables, n: ConceptNode): Tables {
    var created := if n.id in t.nodes then t.nodes[n.id].createdAt else n.createdAt;
    t.(nodes := t.nodes[n.id := NodeRow(n.scopeId, created, n)])
  }

  function UpsertEdge(t: Tables, e: ConceptEdge): Tables {
    var created := if e.id in t.edges then t.edges[e.id].createdAt else e.createdAt;
    t.(edges := t.edges[e.id := EdgeRow(e.scopeId, e.from, e.to, created, e)])
  }

  /** Columns agree with the payload they were written with. */
  ghost predicate Untampered(t: Tables) {
    && (forall n :: n in t.nodes ==> t.nodes[n].payload.id == n && t.nodes[n].payload.scopeId == t.nodes[n].scope)
    && forall e :: e in t.edges ==>
         var row := t.edges[e];
         row.payload.id == e && row.payload.scopeId == row.scope && row.payload.from == row.from
             && row.payload.to == row.to
  }

  // ---------------------------------------------------------------- the connection

  /** What is durable, and the uncommitted view of an open transaction. */
  datatype Db = Db(durable: Tables, pending: Option<Tables>) {
    function Visible(): Tables {
      if pending.Some? then pending.value else durable
    }

    /** One write statement: inside the open transaction if there is one, else on its own. */
    function Write(t: Tables): Db {
      if pending.Some? then Db(durable, Some(t)) else Db(t, None)
    }

    function Begin(): Db
      requires pending.None?
    {
      Db(durable, Some(durable))
    }

    function Commit(): Db
      requires pending.Some?
    {
      Db(pending.value, None)
    }

    function Rollback(works: bool): Db {
      if works then Db(durable, None) else this
    }
  }

  /** Which statements of the two-row transaction go through. */
  datatype TxIo = TxIo(begin: bool, node: bool, edge: bool, commit: bool, rollback: bool)

  /** `persist_pair_in_tx`; `BEGIN` is refused inside an open transaction. */
  function PersistPair(db: Db, n: ConceptNode, e: ConceptEdge, io: TxIo): (Db, bool) {
    if !io.begin || db.pending.Some? then (db, false)
    else
      var d0 := db.Begin();
      if !io.node then (d0.Rollback(io.rollback), false)
      else
        var d1 := d0.Write(UpsertNode(d0.Visible(), n));
        if !io.edge then (d1.Rollback(io.rollback), false)
        else
          var d2 := d1.Write(UpsertEdge(d1.Visible(), e));
          if !io.commit then (d2.Rollback(io.rollback), false)
          else (d2.Commit(), true)
  }

  /** The two rows land together or not at all, whatever fails; the connection stays usable unless `ROLLBACK` itself
      fails. */
  lemma PairAtomic(db: Db, n: ConceptNode, e: ConceptEdge, io: TxIo)
    requires db.pending.None?
    ensures PersistPair(db, n, e, io).1 <==> io.begin && io.node && io.edge && io.commit
    ensures PersistPair(db, n, e, io).1 ==>
              PersistPair(db, n, e, io).0 == Db(UpsertEdge(UpsertNode(db.durable, n), e), None)
    ensures !PersistPair(db, n, e, io).1 ==> PersistPair(db, n, e, io).0.durable == db.durable
    ensures !PersistPair(db, n, e, io).1 ==>
              (PersistPair(db, n, e, io).0 == db <==> !io.begin || io.rollback)
  {}

  // ---------------------------------------------------------------- the store

  datatype Store = Store(graph: State, db: Db)

  datatype Reply<+T> = Reply(store: Store, result: Result<T, GraphError>)

  function StoreNode(st: Store, node: ConceptNode, io: bool): Reply<NodeId> {
    var r := AddNode(st.graph, node);
    if r.result.Err? then Reply(st, Err(r.result.error))
    else if io then Reply(Store(r.graph, st.db.Write(UpsertNode(st.db.Visible(), node))), Ok(node.id))
    else Reply(Store(RemoveNode(r.graph, node.id).graph, st.db), Err(GraphError.Sqlite))
  }

  function StoreEdge(st: Store, edge: ConceptEdge, io: bool): Reply<EdgeId> {
    var r := AddEdge(st.graph, edge);
    if r.result.Err? then Reply(st, Err(r.result.error))
    else if io then Reply(Store(r.graph, st.db.Write(UpsertEdge(st.db.Visible(), edge))), Ok(edge.id))
    else Reply(Store(RemoveEdge(r.graph, edge.id).graph, st.db), Err(GraphError.Sqlite))
  }

  /** The first edge with the id. */
  function FindEdge(edges: seq<ConceptEdge>, id: EdgeId): Option<ConceptEdge> {
    if edges == [] then None else if edges[0].id == id then Some(edges[0]) else FindEdge(edges[1..], id)
  }

  function Supersede(st: Store, predecessor: NodeId, successor: NodeId, edgeId: EdgeId, now: Time,
                     io: TxIo): Reply<EdgeId> {
    if predecessor !in st.graph.nodes then Reply(st, Err(NodeNotFound(predecessor)))
    else
      var before := st.graph.nodes[predecessor];
      var r := SupersedeNode(st.graph, predecessor, successor, edgeId, now);
      if r.result.Err? then Reply(Store(r.graph, st.db), Err(r.result.error))
      else
        var edge := FindEdge(EdgesAt(r.graph, predecessor), edgeId);
        if edge.None? then Reply(Store(r.graph, st.db), Err(Persistence))
        else
          var (db, ok) := PersistPair(st.db, r.graph.nodes[predecessor], edge.value, io);
          if ok then Reply(Store(r.graph, db), Ok(edgeId))
          else Reply(Store(SetNode(RemoveEdge(r.graph, edgeId).graph, predecessor, before), db), Err(GraphError.Sqlite))
  }

  function SaveNode(st: Store, id: NodeId, io: bool): Reply<()> {
    if id !in st.graph.nodes then Reply(st, Err(NodeNotFound(id)))
    else if io then Reply(st.(db := st.db.Write(UpsertNode(st.db.Visible(), st.graph.nodes[id]))), Ok(()))
    else Reply(st, Err(GraphError.Sqlite))
  }

  // ---------------------------------------------------------------- rows and answers, field by field

  /** An upsert writes one row: the scope and payload are the node's, and the creation time is the first one written. */
  lemma UpsertNodeExact(t: Tables, n: ConceptNode)
    ensures var u := UpsertNode(t, n);
            && u.edges == t.edges
            && OnlyAt(t.nodes, u.nodes, n.id,
                      NodeRow(scope := n.scopeId, payload := n,
                              createdAt := if n.id in t.nodes then t.nodes[n.id].createdAt else n.createdAt))
  {}

  lemma UpsertEdgeExact(t: Tables, e: ConceptEdge)
    ensures var u := UpsertEdge(t, e);
            && u.nodes == t.nodes
            && OnlyAt(t.edges, u.edges, e.id,
                      EdgeRow(scope := e.scopeId, from := e.from, to := e.to, payload := e,
                              createdAt := if e.id in t.edges then t.edges[e.id].createdAt else e.createdAt))
  {}

  /** What one statement outside a transaction leaves durable. */
  ghost predicate Landed(before: Db, after: Db, t: Tables) {
    before.pending.None? ==> after == Db(t, None)
  }

  /** A node insert is answered Ok exactly when its id is new and the write goes through; then memory and disk hold
      it. */
  lemma StoreNodeAnswers(st: Store, node: ConceptNode, io: bool)
    ensures var r := StoreNode(st, node, io);
            && (r.result == Ok(node.id) <==> node.id !in st.graph.nodes && io)
            && (r.result == Err(DuplicateNode(node.id)) <==> node.id in st.graph.nodes)
            && (r.result == Err(GraphError.Sqlite) <==> node.id !in st.graph.nodes && !io)
            && (r.result.Err? ==> r.store.db == st.db)
            && (r.result.Ok? ==>
                  && OnlyAt(st.graph.nodes, r.store.graph.nodes, node.id, node) && r.store.graph.edges == st.graph.edges
                  && Landed(st.db, r.store.db, UpsertNode(st.db.durable, node)))
  {}

  /** An edge insert is answered Ok exactly when both ends are there and the write goes through. */
  lemma StoreEdgeAnswers(st: Store, edge: ConceptEdge, io: bool)
    ensures var r := StoreEdge(st, edge, io);
            var attached := edge.from in st.graph.nodes && edge.to in st.graph.nodes;
            && (r.result == Ok(edge.id) <==> attached && io)
            && (r.result == Err(GraphError.Sqlite) <==> attached && !io)
            && (edge.from !in st.graph.nodes ==> r == Reply(st, Err(DanglingEdge(edge.from))))
            && (edge.from in st.graph.nodes && edge.to !in st.graph.nodes ==>
                r == Reply(st, Err(DanglingEdge(edge.to))))
            && (r.result.Err? ==> r.store.db == st.db)
            && (r.result.Ok? ==>
                  && OnlyAt(st.graph.edges, r.store.graph.edges, edge.id, edge) && r.store.graph.nodes == st.graph.nodes
                  && Landed(st.db, r.store.db, UpsertEdge(st.db.durable, edge)))
  {}

  /** A save is answered Ok exactly when the node is in memory and the write goes through; then its row is that node. */
  lemma SaveNodeAnswers(st: Store, id: NodeId, io: bool)
    ensures var r := SaveNode(st, id, io);
            && r.store.graph == st.graph
            && (r.result == Ok(()) <==> id in st.graph.nodes && io)
            && (r.result == Err(NodeNotFound(id)) <==> id !in st.graph.nodes)
            && (r.result == Err(GraphError.Sqlite) <==> id in st.graph.nodes && !io)
            && (r.result.Err? ==> r.store.db == st.db)
            && (r.result.Ok? ==> Landed(st.db, r.store.db, UpsertNode(st.db.durable, st.graph.nodes[id])))
  {}

  // ---------------------------------------------------------------- failed writes are undone

  /** A failed node insert leaves the store as it was. */
  lemma FailedNodeUndone(st: Store, node: ConceptNode, io: bool)
    requires Coherent(st.graph) && StoreNode(st, node, io).result.Err?
    ensures StoreNode(st, node, io).store == st
  {
    hide Prune, ListedAt;
    if node.id !in st.graph.nodes { AddThenRemoveNode(st.graph, node); }
  }

  /** A failed edge insert leaves the store as it was, exactly when the edge was refused or its id was unused. */
  lemma FailedEdgeUndoneIff(st: Store, edge: ConceptEdge, io: bool)
    requires Coherent(st.graph) && StoreEdge(st, edge, io).result.Err?
    ensures StoreEdge(st, edge, io).store == st <==>
            (edge.from in st.graph.nodes && edge.to in st.graph.nodes ==> edge.id !in st.graph.edges)
  {
    hide Coherent;
    if edge.from in st.graph.nodes && edge.to in st.graph.nodes { AddThenRemoveEdgeIffFresh(st.graph, edge); }
  }

  const FRESH_STORE := Store(EMPTY, Db(Tables(map[], map[]), None))

  /** The sample nodes, added to the fresh store by the wrapper. */
  function StoredNodes(): Store {
    StoreNode(StoreNode(FRESH_STORE, SampleNode(0, 9), true).store, SampleNode(1, 9), true).store
  }

  /** A failed write of a repeated edge id takes the earlier edge out of memory, while its row stays. */
  lemma FailedEdgeLosesEarlier()
    ensures var first := StoreEdge(StoredNodes(), SAMPLE_EDGE, true);
            var second := StoreEdge(first.store, SAMPLE_EDGE, false);
            && first.result.Ok? && Coherent(first.store.graph) && second.result.Err?
            && SAMPLE_EDGE.id in first.store.graph.edges && SAMPLE_EDGE.id !in second.store.graph.edges
            && SAMPLE_EDGE.id in second.store.db.durable.edges
  {
    hide Coherent, Prune;
    SamplesCoherent();
    assert StoredNodes().graph == TwoNodes() && StoredNodes().db.pending.None?;
  }

  lemma {:induction false} FindEdgeFound(edges: seq<ConceptEdge>, e: ConceptEdge)
    requires e in edges && forall x :: x in edges && x.id == e.id ==> x == e
    ensures FindEdge(edges, e.id) == Some(e)
  {
    if edges[0].id == e.id {
      assert edges[0] in edges;
    } else {
      assert forall x :: x in edges[1..] ==> x in edges;
      FindEdgeFound(edges[1..], e);
    }
  }

  /** The new supersedes edge is found at its source. */
  lemma SupersedesEdgeFound(g: State, p: NodeId, s: NodeId, e: EdgeId, now: Time)
    requires Coherent(g) && e !in g.edges && p in g.nodes && s in g.nodes && p != s
    ensures FindEdge(EdgesAt(SupersedeNode(g, p, s, e, now).graph, p), e)
         == Some(NewEdge(e, p, s, Supersedes, g.nodes[p].scopeId, now))
  {
    var h := SupersedeNode(g, p, s, e, now).graph;
    SupersedeCoherent(g, p, s, e, now);
    var edge := NewEdge(e, p, s, Supersedes, g.nodes[p].scopeId, now);
    var out, into := List(h.outgoing, p), List(h.incoming, p);
    EdgesForMembers(h, out);
    EdgesForMembers(h, into);
    assert h.edges[e] == edge && out[|out| - 1] == e;
    forall x | x in EdgesAt(h, p) && x.id == e ensures x == edge {
      var k :| k in h.edges && x == h.edges[k];
    }
    FindEdgeFound(EdgesAt(h, p), edge);
  }

  /** Undoing the in-memory half of a supersession. */
  lemma SupersedeUndone(g: State, p: NodeId, s: NodeId, e: EdgeId, now: Time)
    requires Coherent(g) && e !in g.edges && p in g.nodes && s in g.nodes && p != s
    ensures SetNode(RemoveEdge(SupersedeNode(g, p, s, e, now).graph, e).graph, p, g.nodes[p]) == g
  {
    var marked := g.nodes[p].MarkSupersededBy(s, now);
    var g1 := SetNode(g, p, marked);
    var edge := NewEdge(e, p, s, Supersedes, g.nodes[p].scopeId, now);
    assert marked.id == p;
    hide Coherent;
    SetNodeCoherent(g, p, marked);
    AddThenRemoveEdgeIffFresh(g1, edge);
    hide RemoveEdge, AddEdge;
    assert g1.nodes[p := g.nodes[p]] == g.nodes;
  }

  lemma SupersedeShape(g: State, p: NodeId, s: NodeId, e: EdgeId, now: Time)
    ensures var r := SupersedeNode(g, p, s, e, now);
            if p in g.nodes && s in g.nodes && p != s then
              && r.result == Ok(e) && p in r.graph.nodes && r.graph.nodes[p] == g.nodes[p].MarkSupersededBy(s, now)
              && e in r.graph.edges && r.graph.edges[e] == NewEdge(e, p, s, Supersedes, g.nodes[p].scopeId, now)
            else r.result.Err? && r.graph == g
  {}

  /** For every failure point, a supersession lands in memory and in both tables, or nowhere. */
  lemma SupersedeAtomic(st: Store, p: NodeId, s: NodeId, e: EdgeId, now: Time, io: TxIo)
    requires Coherent(st.graph) && e !in st.graph.edges && st.db.pending.None?
    ensures var r := Supersede(st, p, s, e, now, io);
            var valid := p in st.graph.nodes && s in st.graph.nodes && p != s;
            && (r.result.Ok? <==> valid && io.begin && io.node && io.edge && io.commit)
            && (r.result.Ok? ==>
                  && r.store.graph == SupersedeNode(st.graph, p, s, e, now).graph
                  && e in r.store.graph.edges && p in r.store.graph.nodes
                  && var g := r.store.graph;
                     r.store.db == Db(UpsertEdge(UpsertNode(st.db.durable, g.nodes[p]), g.edges[e]), None))
            && (r.result.Err? ==> r.store.graph == st.graph && r.store.db.durable == st.db.durable)
            && (r.result.Err? ==> (r.store == st <==> !valid || !io.begin || io.rollback))
  {
    hide Coherent, PersistPair, EdgesAt, FindEdge, RemoveEdge, SupersedeNode, SetNode, UpsertNode, UpsertEdge, NewEdge;
    SupersedeShape(st.graph, p, s, e, now);
    if p in st.graph.nodes && s in st.graph.nodes && p != s {
      var g' := SupersedeNode(st.graph, p, s, e, now).graph;
      SupersedesEdgeFound(st.graph, p, s, e, now);
      SupersedeUndone(st.graph, p, s, e, now);
      PairAtomic(st.db, g'.nodes[p], g'.edges[e], io);
    }
  }

  /** What a supersession that does not land is told: the missing or repeated node, the wrapper looking for the
      predecessor first, or that the transaction failed. */
  lemma SupersedeAnswers(st: Store, p: NodeId, s: NodeId, e: EdgeId, now: Time, io: TxIo)
    requires Coherent(st.graph) && e !in st.graph.edges && st.db.pending.None?
    ensures var r, g := Supersede(st, p, s, e, now, io), st.graph;
            && (r.result.Ok? ==> r.result.value == e)
            && (p !in g.nodes ==> r.result == Err(NodeNotFound(p)))
            && (p in g.nodes && p == s ==> r.result == Err(SelfSupersession(p)))
            && (p in g.nodes && p != s && s !in g.nodes ==> r.result == Err(NodeNotFound(s)))
            && (p in g.nodes && p != s && s in g.nodes && !(io.begin && io.node && io.edge && io.commit) ==>
                  r.result == Err(GraphError.Sqlite))
  {
    hide Coherent, PersistPair, EdgesAt, FindEdge, RemoveEdge, AddEdge, SetNode, UpsertNode, UpsertEdge, NewEdge;
    if p in st.graph.nodes && s in st.graph.nodes && p != s {
      var g' := SupersedeNode(st.graph, p, s, e, now).graph;
      SupersedeShape(st.graph, p, s, e, now);
      SupersedesEdgeFound(st.graph, p, s, e, now);
      PairAtomic(st.db, g'.nodes[p], g'.edges[e], io);
    }
  }
}
