/** The persistent graph as objects: a connection with its transaction, and the wrapper that rolls memory back. */
module PersistentGraphs {
  import opened Basics
  import opened Graph
  import opened ConceptGraphs
  import opened GraphPersist
  import opened GraphMirror
  import opened GraphPages

  /** Ids in the order of their creation column. */
  ghost predicate OldestFirst(created: map<Uuid, Time>, ids: seq<Uuid>) {
    && (forall i :: 0 <= i < |ids| ==> ids[i] in created)
    && forall i, j :: 0 <= i < j < |ids| ==> created[ids[i]] <= created[ids[j]]
  }

  lemma {:induction false} OldestExists(created: map<Uuid, Time>, rest: set<Uuid>) returns (id: Uuid)
    requires rest != {} && rest <= created.Keys
    ensures id in rest && forall k :: k in rest ==> created[id] <= created[k]
  {
    id :| id in rest;
    if rest != {id} {
      var k := OldestExists(created, rest - {id});
      if created[k] < created[id] { id := k; }
    }
  }

  /** `ORDER BY created_at ASC`; ties come in any order. */
  method OrderByCreation(created: map<Uuid, Time>) returns (ids: seq<Uuid>)
    ensures ListsKeys(created, ids) && OldestFirst(created, ids)
  {
    ids := [];
    var rest := created.Keys;
    while rest != {}
      invariant rest <= created.Keys && NoDup(ids)
      invariant forall id :: id in created <==> id in rest || id in ids
      invariant forall id :: id in rest ==> id !in ids
      invariant OldestFirst(created, ids)
      invariant forall i, k :: 0 <= i < |ids| && k in rest ==> created[ids[i]] <= created[k]
      decreases rest
    {
      ghost var oldest := OldestExists(created, rest);
      var id :| id in rest && forall k :: k in rest ==> created[id] <= created[k];
      ids := ids + [id];
      rest := rest - {id};
    }
  }

  lemma {:induction false} FirstRowExists(created: map<Uuid, Time>, bytes: Uuid -> nat, rest: set<Uuid>)
    returns (id: Uuid)
    requires rest != {} && rest <= created.Keys && Injective(bytes)
    ensures id in rest && forall k :: k in rest && k != id ==> Precedes(created, bytes, id, k)
  {
    id :| id in rest;
    if rest != {id} {
      var other :| other in rest && other != id;
      var k := FirstRowExists(created, bytes, rest - {id});
      assert bytes(k) != bytes(id);
      if Precedes(created, bytes, k, id) {
        id := k;
      } else {
        forall m | m in rest && m != id ensures Precedes(created, bytes, id, m) {
          assert m in rest - {id} && (m == k || Precedes(created, bytes, k, m));
        }
      }
    }
  }

  /** `ORDER BY created_at ASC, id ASC`. */
  method OrderByCreationThenId(created: map<Uuid, Time>, bytes: Uuid -> nat) returns (ids: seq<Uuid>)
    requires Injective(bytes)
    ensures ListsKeys(created, ids) && InDiskOrder(created, bytes, ids)
  {
    ids := [];
    var rest := created.Keys;
    while rest != {}
      invariant rest <= created.Keys && NoDup(ids)
      invariant forall id :: id in created <==> id in rest || id in ids
      invariant forall id :: id in rest ==> id !in ids
      invariant InDiskOrder(created, bytes, ids)
      invariant forall i, k :: 0 <= i < |ids| && k in rest ==> Precedes(created, bytes, ids[i], k)
      decreases rest
    {
      ghost var first := FirstRowExists(created, bytes, rest);
      var id :| id in rest && forall k :: k in rest && k != id ==> Precedes(created, bytes, id, k);
      ids := ids + [id];
      rest := rest - {id};
    }
  }

  class Connection {
    var durable: Tables
    var pending: Option<Tables>

    function View(): Db
      reads this
    {
      Db(durable, pending)
    }

    constructor (tables: Tables)
      ensures View() == Db(tables, None)
    {
      durable, pending := tables, None;
    }

    method PutNode(node: ConceptNode, ok: bool) returns (done: bool)
      modifies this
      ensures done == ok
      ensures View() == if ok then old(View()).Write(UpsertNode(old(View()).Visible(), node)) else old(View())
    {
      if ok {
        if pending.Some? {
          pending := Some(UpsertNode(pending.value, node));
        } else {
          durable := UpsertNode(durable, node);
        }
      }
      return ok;
    }

    method PutEdge(edge: ConceptEdge, ok: bool) returns (done: bool)
      modifies this
      ensures done == ok
      ensures View() == if ok then old(View()).Write(UpsertEdge(old(View()).Visible(), edge)) else old(View())
    {
      if ok {
        if pending.Some? {
          pending := Some(UpsertEdge(pending.value, edge));
        } else {
          durable := UpsertEdge(durable, edge);
        }
      }
      return ok;
    }

    /** `BEGIN IMMEDIATE`, the two upserts, `COMMIT`; any failure ends in a best-effort `ROLLBACK`. */
    method PersistPairInTx(node: ConceptNode, edge: ConceptEdge, io: TxIo) returns (ok: bool)
      modifies this
      ensures (View(), ok) == PersistPair(old(View()), node, edge, io)
    {
      if !io.begin || pending.Some? {
        return false;
      }
      pending := Some(durable);
      var written := PutNode(node, io.node);
      if written {
        written := PutEdge(edge, io.edge);
      }
      if written {
        if io.commit {
          durable, pending := pending.value, None;
          return true;
        }
      }
      if io.rollback { pending := None; }
      return false;
    }

    /** The payloads of the rows in `order`. */
    method FetchNodes(scope: ScopeId, order: seq<NodeId>) returns (rows: seq<ConceptNode>)
      requires ListsKeys(NodeAges(View().Visible(), scope), order)
      ensures ListsKeys(ScopedNodes(View().Visible(), scope), order)
      ensures (forall i :: 0 <= i < |order| ==> order[i] in ScopedNodes(View().Visible(), scope))
              && rows == Payloads(ScopedNodes(View().Visible(), scope), order)
    {
      var table := View().Visible().nodes;
      assert forall i :: 0 <= i < |order| ==> order[i] in order;
      rows := [];
      for i := 0 to |order|
        invariant |rows| == i && forall j :: 0 <= j < i ==> order[j] in table && rows[j] == table[order[j]].payload
      {
        rows := rows + [table[order[i]].payload];
      }
    }

    /** The payloads of the rows in `order`. */
    method FetchEdges(scope: ScopeId, order: seq<EdgeId>) returns (rows: seq<ConceptEdge>)
      requires ListsKeys(EdgeAges(View().Visible(), scope), order)
      ensures ListsKeys(ScopedEdges(View().Visible(), scope), order)
      ensures (forall i :: 0 <= i < |order| ==> order[i] in ScopedEdges(View().Visible(), scope))
              && rows == Payloads(ScopedEdges(View().Visible(), scope), order)
    {
      var table := View().Visible().edges;
      assert forall i :: 0 <= i < |order| ==> order[i] in order;
      rows := [];
      for i := 0 to |order|
        invariant |rows| == i && forall j :: 0 <= j < i ==> order[j] in table && rows[j] == table[order[j]].payload
      {
        rows := rows + [table[order[i]].payload];
      }
    }
  }

  method FindFirst(edges: seq<ConceptEdge>, id: EdgeId) returns (r: Option<ConceptEdge>)
    ensures r == FindEdge(edges, id)
  {
    for i := 0 to |edges|
      invariant FindEdge(edges, id) == FindEdge(edges[i..], id)
    {
      assert edges[i..][0] == edges[i] && edges[i..][1..] == edges[i + 1..];
      if edges[i].id == id { return Some(edges[i]); }
    }
    return None;
  }

  class PersistentConceptGraph {
    var graph: ConceptGraph
    const conn: Connection

    ghost function View(): Store
      reads this, graph, conn
    {
      Store(graph.View(), conn.View())
    }

    constructor (conn: Connection)
      ensures this.conn == conn && fresh(graph) && graph.View() == EMPTY
    {
      this.conn := conn;
      this.graph := new ConceptGraph();
    }

    method AddNode(node: ConceptNode, ok: bool) returns (r: Result<NodeId, GraphError>)
      modifies graph, conn
      ensures Reply(View(), r) == StoreNode(old(View()), node, ok)
    {
      var added := graph.AddNode(node);
      if added.Err? { return Err(added.error); }
      var written := conn.PutNode(node, ok);
      if !written {
        var _ := graph.RemoveNode(added.value);
        return Err(GraphError.Sqlite);
      }
      return Ok(added.value);
    }

    method AddEdge(edge: ConceptEdge, ok: bool) returns (r: Result<EdgeId, GraphError>)
      modifies graph, conn
      ensures Reply(View(), r) == StoreEdge(old(View()), edge, ok)
    {
      var added := graph.AddEdge(edge);
      if added.Err? { return Err(added.error); }
      var written := conn.PutEdge(edge, ok);
      if !written {
        var _ := graph.RemoveEdge(added.value);
        return Err(GraphError.Sqlite);
      }
      return Ok(added.value);
    }

    method SupersedeNode(predecessor: NodeId, successor: NodeId, edgeId: EdgeId, now: Time, io: TxIo)
      returns (r: Result<EdgeId, GraphError>)
      modifies graph, conn
      ensures Reply(View(), r) == Supersede(old(View()), predecessor, successor, edgeId, now, io)
    {
      hide EdgesAt, FindEdge, PersistPair, RemoveEdge;
      if predecessor !in graph.nodes {
        return Err(NodeNotFound(predecessor));
      }
      var before := graph.nodes[predecessor];
      var superseded := graph.SupersedeNode(predecessor, successor, edgeId, now);
      if superseded.Err? { return Err(superseded.error); }
      var after := graph.nodes[predecessor];
      var incident := graph.GetEdges(predecessor);
      var edge := FindFirst(incident, edgeId);
      if edge.None? { return Err(Persistence); }
      var ok := conn.PersistPairInTx(after, edge.value, io);
      if !ok {
        var _ := graph.RemoveEdge(edgeId);
        graph.nodes := graph.nodes[predecessor := before];
        return Err(GraphError.Sqlite);
      }
      return Ok(superseded.value);
    }

    method SaveNode(id: NodeId, ok: bool) returns (r: Result<(), GraphError>)
      modifies conn
      ensures Reply(View(), r) == GraphPersist.SaveNode(old(View()), id, ok)
    {
      if id !in graph.nodes {
        return Err(NodeNotFound(id));
      }
      var written := conn.PutNode(graph.nodes[id], ok);
      if !written { return Err(GraphError.Sqlite); }
      return Ok(());
    }

    /** Drop memory and rehydrate one scope. */
    method LoadScope(scope: ScopeId)
      returns (r: Result<(nat, nat), GraphError>, ghost nodeIds: seq<NodeId>, ghost edgeIds: seq<EdgeId>)
      modifies this
      ensures fresh(graph) && conn.View() == old(conn.View())
      ensures var t := conn.View().Visible();
              && ListsKeys(ScopedNodes(t, scope), nodeIds) && ListsKeys(ScopedEdges(t, scope), edgeIds)
              && OldestFirst(NodeAges(t, scope), nodeIds) && OldestFirst(EdgeAges(t, scope), edgeIds)
              && (forall i :: 0 <= i < |nodeIds| ==> nodeIds[i] in ScopedNodes(t, scope))
              && (forall i :: 0 <= i < |edgeIds| ==> edgeIds[i] in ScopedEdges(t, scope))
              && Effect(graph.View(), r)
                  == LoadGraph(Payloads(ScopedNodes(t, scope), nodeIds), Payloads(ScopedEdges(t, scope), edgeIds))
    {
      hide ListsKeys, OldestFirst, NodeAges, EdgeAges, ScopedNodes, ScopedEdges, Payloads, LoadNodes, LoadEdges;
      var ids := OrderByCreation(NodeAges(conn.View().Visible(), scope));
      var ids' := OrderByCreation(EdgeAges(conn.View().Visible(), scope));
      var nodeRows := conn.FetchNodes(scope, ids);
      var edgeRows := conn.FetchEdges(scope, ids');
      nodeIds, edgeIds := ids, ids';
      graph := new ConceptGraph();
      var nodes := LoadNodesInto(graph, nodeRows);
      if nodes.Err? { return Err(nodes.error), ids, ids'; }
      var edges := LoadEdgesInto(graph, edgeRows);
      if edges.Err? { return Err(edges.error), ids, ids'; }
      return Ok((nodes.value, edges.value)), ids, ids';
    }

    /** `load_scope_paginated`: edges that leave the window are skipped. */
    method LoadScopePaginated(scope: ScopeId, limit: nat, offset: nat, bytes: Uuid -> nat)
      returns (r: Result<(nat, nat), GraphError>, ghost nodeIds: seq<NodeId>, ghost edgeIds: seq<EdgeId>)
      requires Injective(bytes)
      modifies this
      ensures fresh(graph) && conn.View() == old(conn.View())
      ensures var t := conn.View().Visible();
              && ListsKeys(ScopedNodes(t, scope), nodeIds) && ListsKeys(ScopedEdges(t, scope), edgeIds)
              && InDiskOrder(NodeAges(t, scope), bytes, nodeIds) && InDiskOrder(EdgeAges(t, scope), bytes, edgeIds)
              && (forall i :: 0 <= i < |nodeIds| ==> nodeIds[i] in ScopedNodes(t, scope))
              && (forall i :: 0 <= i < |edgeIds| ==> edgeIds[i] in ScopedEdges(t, scope))
              && Effect(graph.View(), r) == LoadPage(Window(Payloads(ScopedNodes(t, scope), nodeIds), limit, offset),
                                                     Window(Payloads(ScopedEdges(t, scope), edgeIds), limit, offset))
    {
      hide ListsKeys, InDiskOrder, NodeAges, EdgeAges, ScopedNodes, ScopedEdges, Payloads, Window, LoadNodes, LoadEdges;
      var ids := OrderByCreationThenId(NodeAges(conn.View().Visible(), scope), bytes);
      var ids' := OrderByCreationThenId(EdgeAges(conn.View().Visible(), scope), bytes);
      var allNodes := conn.FetchNodes(scope, ids);
      var allEdges := conn.FetchEdges(scope, ids');
      nodeIds, edgeIds := ids, ids';
      var nodeRows, edgeRows := Window(allNodes, limit, offset), Window(allEdges, limit, offset);
      graph := new ConceptGraph();
      var nodes := LoadNodesInto(graph, nodeRows);
      if nodes.Err? { return Err(nodes.error), ids, ids'; }
      var edgeCount := AttachEdgesInto(graph, edgeRows);
      return Ok((nodes.value, edgeCount)), ids, ids';
    }

    /** `query_neighbors_from_disk`. */
    method QueryNeighborsFromDisk(scope: ScopeId, node: NodeId, bytes: Uuid -> nat)
      returns (out: seq<ConceptEdge>, ids: seq<EdgeId>)
      requires Injective(bytes)
      ensures var t := conn.View().Visible();
              && ListsKeys(NeighborRows(t, scope, node), ids)
              && InDiskOrder(NeighborAges(t, scope, node), bytes, ids)
              && (forall i :: 0 <= i < |ids| ==> ids[i] in NeighborRows(t, scope, node))
              && out == Payloads(NeighborRows(t, scope, node), ids)
    {
      var table := conn.View().Visible().edges;
      ids := OrderByCreationThenId(NeighborAges(conn.View().Visible(), scope, node), bytes);
      assert forall i :: 0 <= i < |ids| ==> ids[i] in ids;
      out := [];
      var seen: set<EdgeId> := {};
      for i := 0 to |ids|
        invariant |out| == i && forall j :: 0 <= j < i ==> ids[j] in table && out[j] == table[ids[j]].payload
        invariant forall e :: e in seen ==> e in ids[..i]
      {
        if ids[i] in seen { continue; }
        seen := seen + {ids[i]};
        out := out + [table[ids[i]].payload];
      }
    }
  }

  /** Add the decoded node rows to the emptied graph. */
  method LoadNodesInto(graph: ConceptGraph, rows: seq<ConceptNode>) returns (r: Result<nat, GraphError>)
    requires graph.View() == EMPTY
    modifies graph
    ensures Effect(graph.View(), r) == LoadNodes(rows)
  {
    hide Graph.AddNode;
    var count := 0;
    for i := 0 to |rows|
      invariant Effect(graph.View(), Ok(count)) == LoadNodes(rows[..i])
    {
      assert rows[..i + 1][..i] == rows[..i];
      var added := graph.AddNode(rows[i]);
      if added.Err? {
        LoadStops(rows, i + 1);
        return Err(added.error);
      }
      count := count + 1;
    }
    assert rows[..|rows|] == rows;
    return Ok(count);
  }

  method LoadEdgesInto(graph: ConceptGraph, rows: seq<ConceptEdge>) returns (r: Result<nat, GraphError>)
    modifies graph
    ensures Effect(graph.View(), r) == LoadEdges(old(graph.View()), rows)
  {
    hide Graph.AddEdge;
    ghost var g := graph.View();
    var count := 0;
    for i := 0 to |rows|
      invariant Effect(graph.View(), Ok(count)) == LoadEdges(g, rows[..i])
    {
      assert rows[..i + 1][..i] == rows[..i];
      var added := graph.AddEdge(rows[i]);
      if added.Err? {
        LoadEdgesStops(g, rows, i + 1);
        return Err(added.error);
      }
      count := count + 1;
    }
    assert rows[..|rows|] == rows;
    return Ok(count);
  }

  /** Add the decoded edge rows whose ends are loaded, and skip the others. */
  method AttachEdgesInto(graph: ConceptGraph, rows: seq<ConceptEdge>) returns (count: nat)
    modifies graph
    ensures Effect(graph.View(), Ok(count)) == LoadEdges(old(graph.View()), Attachable(old(graph.View()), rows))
  {
    hide Attachable;
    ghost var g := graph.View();
    count := 0;
    AttachableNone(g);
    assert rows[..0] == [];
    for i := 0 to |rows|
      invariant graph.nodes == g.nodes
      invariant Effect(graph.View(), Ok(count)) == LoadEdges(g, Attachable(g, rows[..i]))
    {
      var edge := rows[i];
      AttachableNext(g, rows, i);
      if edge.from !in graph.nodes || edge.to !in graph.nodes { continue; }
      var added := graph.AddEdge(edge);
      assert added.Ok?;
      count := count + 1;
    }
    assert rows[..|rows|] == rows;
  }

  lemma AttachableNone(g: State)
    ensures Attachable(g, []) == []
  {}

  lemma {:induction false} LoadStops(nodes: seq<ConceptNode>, i: nat)
    requires i <= |nodes| && LoadNodes(nodes[..i]).result.Err?
    ensures LoadNodes(nodes) == LoadNodes(nodes[..i])
  {
    if i == |nodes| {
      assert nodes[..i] == nodes;
    } else {
      var front := nodes[..|nodes| - 1];
      assert front[..i] == nodes[..i];
      LoadStops(front, i);
    }
  }

  lemma {:induction false} LoadEdgesStops(g: State, edges: seq<ConceptEdge>, i: nat)
    requires i <= |edges| && LoadEdges(g, edges[..i]).result.Err?
    ensures LoadEdges(g, edges) == LoadEdges(g, edges[..i])
  {
    if i == |edges| {
      assert edges[..i] == edges;
    } else {
      var front := edges[..|edges| - 1];
      assert front[..i] == edges[..i];
      LoadEdgesStops(g, front, i);
    }
  }

  lemma AttachableNext(g: State, edges: seq<ConceptEdge>, i: nat)
    requires i < |edges|
    ensures var kept, edge := Attachable(g, edges[..i]), edges[i];
            if edge.from in g.nodes && edge.to in g.nodes then
              && Attachable(g, edges[..i + 1]) == kept + [edge]
              && (kept + [edge])[..|kept|] == kept
            else Attachable(g, edges[..i + 1]) == kept
  {
    assert edges[..i + 1][..i] == edges[..i];
  }
}
