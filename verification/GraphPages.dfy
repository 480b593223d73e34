/** Loading a scope window by window: what one page holds, and what no page ever holds. */
module GraphPages {
  import opened Basics
  import opened Graph
  import opened ConceptGraphs
  import opened GraphPersist
  import opened GraphMirror
  import Incremental

  function Min(a: nat, b: nat): nat {
    if a < b then a else b
  }

  /** `LIMIT limit OFFSET offset`. */
  function Window<T>(s: seq<T>, limit: nat, offset: nat): seq<T> {
    s[Min(offset, |s|)..Min(offset + limit, |s|)]
  }

  /** The edges with both ends in the graph. */
  function Attachable(g: State, edges: seq<ConceptEdge>): seq<ConceptEdge> {
    if edges == [] then []
    else
      var front, last := Attachable(g, edges[..|edges| - 1]), edges[|edges| - 1];
      if last.from in g.nodes && last.to in g.nodes then front + [last] else front
  }

  function LoadPage(nodes: seq<ConceptNode>, edges: seq<ConceptEdge>): Effect<(nat, nat)> {
    var r := LoadNodes(nodes);
    if r.result.Err? then Effect(r.graph, Err(r.result.error))
    else
      var q := LoadEdges(r.graph, Attachable(r.graph, edges));
      Effect(q.graph, if q.result.Ok? then Ok((r.result.value, q.result.value)) else Err(q.result.error))
  }

  // ---------------------------------------------------------------- one page

  /** The listed ids whose edges attach. */
  lemma {:induction false} AttachableIds(g: State, m: map<EdgeId, ConceptEdge>, ids: seq<EdgeId>)
    returns (kept: seq<EdgeId>)
    requires Keyed(m, EdgeKey, ids)
    ensures Keyed(m, EdgeKey, kept) && Payloads(m, kept) == Attachable(g, Payloads(m, ids))
    ensures forall e :: e in kept <==> e in ids && e in m && Attached(g, m[e])
  {
    if ids == [] {
      kept := [];
    } else {
      var front, last := ids[..|ids| - 1], ids[|ids| - 1];
      assert ids == front + [last];
      KeyedFront(m, EdgeKey, front, last);
      var before := AttachableIds(g, m, front);
      hide NoDup, Keyed, Payloads;
      if Attached(g, m[last]) {
        kept := before + [last];
        KeyedPush(m, before, last);
      } else {
        kept := before;
      }
    }
  }

  lemma KeyedPush(m: map<EdgeId, ConceptEdge>, ids: seq<EdgeId>, e: EdgeId)
    requires Keyed(m, EdgeKey, ids) && e in m && m[e].id == e && e !in ids
    ensures Keyed(m, EdgeKey, ids + [e]) && Payloads(m, ids + [e]) == Payloads(m, ids) + [m[e]]
  {}

  lemma {:induction false} RestrictSize(m: map<EdgeId, ConceptEdge>, ids: seq<EdgeId>)
    requires Keyed(m, EdgeKey, ids)
    ensures |Restrict(m, ids)| == |ids|
  {
    if ids == [] {
      assert Restrict(m, ids) == map[];
    } else {
      var front, last := ids[..|ids| - 1], ids[|ids| - 1];
      assert ids == front + [last];
      KeyedFront(m, EdgeKey, front, last);
      RestrictSize(m, front);
      RestrictStep(m, front, last);
      assert last !in Restrict(m, front);
    }
  }

  /** What a page of the listed rows leaves in memory. */
  ghost predicate PageLoaded(nodes: map<NodeId, ConceptNode>, edges: map<EdgeId, ConceptEdge>, nodeIds: seq<NodeId>,
                             edgeIds: seq<EdgeId>, r: Effect<(nat, nat)>) {
    && Coherent(r.graph) && r.graph.nodes == Restrict(nodes, nodeIds)
    && (forall e :: e in r.graph.edges <==>
          e in edgeIds && e in edges && edges[e].from in r.graph.nodes && edges[e].to in r.graph.nodes)
    && (forall e :: e in r.graph.edges && e in edges ==> r.graph.edges[e] == edges[e])
    && r.result == Ok((|nodeIds|, |r.graph.edges|))
  }

  lemma LoadPageExact(nodes: map<NodeId, ConceptNode>, edges: map<EdgeId, ConceptEdge>, nodeIds: seq<NodeId>,
                      edgeIds: seq<EdgeId>)
    requires Keyed(nodes, NodeKey, nodeIds) && Keyed(edges, EdgeKey, edgeIds)
    ensures PageLoaded(nodes, edges, nodeIds, edgeIds, LoadPage(Payloads(nodes, nodeIds), Payloads(edges, edgeIds)))
  {
    hide Coherent, LoadNodes, LoadEdges, Attachable, NoDup, Payloads;
    LoadNodesExact(nodes, nodeIds);
    var g := LoadNodes(Payloads(nodes, nodeIds)).graph;
    var kept := AttachableIds(g, edges, edgeIds);
    RestrictSize(edges, kept);
    LoadEdgesExact(g, edges, kept);
    assert forall i :: 0 <= i < |kept| ==> kept[i] in kept;
  }

  lemma WindowIs<T>(s: seq<T>, limit: nat, offset: nat, x: T)
    ensures x in Window(s, limit, offset) <==> exists i :: offset <= i < offset + limit && i < |s| && s[i] == x
  {
    var a, b := Min(offset, |s|), Min(offset + limit, |s|);
    var w := Window(s, limit, offset);
    if x in w {
      var k :| 0 <= k < |w| && w[k] == x;
      assert s[a + k] == x;
    }
    if i :| offset <= i < offset + limit && i < |s| && s[i] == x {
      assert w[i - a] == x;
    }
  }

  /** The window of a listing of untampered rows. */
  lemma WindowKeyed(t: Tables, scope: ScopeId, nodeIds: seq<NodeId>, edgeIds: seq<EdgeId>, limit: nat, offset: nat)
    requires Untampered(t) && ListsKeys(ScopedNodes(t, scope), nodeIds) && ListsKeys(ScopedEdges(t, scope), edgeIds)
    ensures Keyed(ScopedNodes(t, scope), NodeKey, Window(nodeIds, limit, offset))
    ensures Keyed(ScopedEdges(t, scope), EdgeKey, Window(edgeIds, limit, offset))
  {
    ListsKeysIndexed(ScopedNodes(t, scope), nodeIds);
    ListsKeysIndexed(ScopedEdges(t, scope), edgeIds);
    WindowAt(nodeIds, limit, offset);
    WindowAt(edgeIds, limit, offset);
    hide Window;
  }

  lemma WindowAt(ids: seq<Uuid>, limit: nat, offset: nat)
    ensures var w := Window(ids, limit, offset);
            && (NoDup(ids) ==> NoDup(w))
            && |w| <= |ids| && forall i :: 0 <= i < |w| ==> w[i] in ids
  {}

  /** A page never fails: it holds its windowed nodes and exactly the windowed edges between them, coherently. */
  lemma PageExact(t: Tables, scope: ScopeId, nodeIds: seq<NodeId>, edgeIds: seq<EdgeId>, limit: nat, offset: nat)
    requires Untampered(t) && ListsKeys(ScopedNodes(t, scope), nodeIds) && ListsKeys(ScopedEdges(t, scope), edgeIds)
    ensures var nodes, edges := ScopedNodes(t, scope), ScopedEdges(t, scope);
            var pageNodes, pageEdges := Window(nodeIds, limit, offset), Window(edgeIds, limit, offset);
            && Keyed(nodes, NodeKey, pageNodes) && Keyed(edges, EdgeKey, pageEdges)
            && PageLoaded(nodes, edges, pageNodes, pageEdges,
                LoadPage(Payloads(nodes, pageNodes), Payloads(edges, pageEdges)))
  {
    hide PageLoaded, Untampered, Payloads, LoadPage, ListsKeys, Keyed, Window;
    WindowKeyed(t, scope, nodeIds, edgeIds, limit, offset);
    LoadPageExact(ScopedNodes(t, scope), ScopedEdges(t, scope), Window(nodeIds, limit, offset),
        Window(edgeIds, limit, offset));
  }

  // ---------------------------------------------------------------- the order windows are cut from

  /** The creation column of a scope's node rows, and of its edge rows. */
  function NodeAges(t: Tables, scope: ScopeId): map<NodeId, Time> {
    map n | n in t.nodes && t.nodes[n].scope == scope :: t.nodes[n].createdAt
  }

  function EdgeAges(t: Tables, scope: ScopeId): map<EdgeId, Time> {
    map e | e in t.edges && t.edges[e].scope == scope :: t.edges[e].createdAt
  }

  predicate Precedes(created: map<Uuid, Time>, bytes: Uuid -> nat, a: Uuid, b: Uuid)
    requires a in created && b in created
  {
    created[a] < created[b] || (created[a] == created[b] && bytes(a) < bytes(b))
  }

  /** Distinct ids hold distinct bytes. */
  ghost predicate Injective(bytes: Uuid -> nat) {
    forall a, b :: bytes(a) == bytes(b) ==> a == b
  }

  /** `ORDER BY created_at ASC, id ASC`, where `bytes` reads an id as the number that its column holds. */
  ghost predicate InDiskOrder(created: map<Uuid, Time>, bytes: Uuid -> nat, ids: seq<Uuid>) {
    && (forall i :: 0 <= i < |ids| ==> ids[i] in created)
    && forall i, j :: 0 <= i < j < |ids| ==> Precedes(created, bytes, ids[i], ids[j])
  }

  /** The listing of a scope's rows goes by their creation column and then by id. */
  lemma DiskOrderMeans(t: Tables, scope: ScopeId, bytes: Uuid -> nat, nodeIds: seq<NodeId>, edgeIds: seq<EdgeId>,
                       i: nat, j: nat)
    requires InDiskOrder(NodeAges(t, scope), bytes, nodeIds) && InDiskOrder(EdgeAges(t, scope), bytes, edgeIds) && i < j
    ensures j < |nodeIds| ==>
              && nodeIds[i] in t.nodes && nodeIds[j] in t.nodes
              && (|| t.nodes[nodeIds[i]].createdAt < t.nodes[nodeIds[j]].createdAt
                  || (t.nodes[nodeIds[i]].createdAt == t.nodes[nodeIds[j]].createdAt
                      && bytes(nodeIds[i]) < bytes(nodeIds[j])))
    ensures j < |edgeIds| ==>
              && edgeIds[i] in t.edges && edgeIds[j] in t.edges
              && (|| t.edges[edgeIds[i]].createdAt < t.edges[edgeIds[j]].createdAt
                  || (t.edges[edgeIds[i]].createdAt == t.edges[edgeIds[j]].createdAt
                      && bytes(edgeIds[i]) < bytes(edgeIds[j])))
  {
    assert j < |nodeIds| ==> Precedes(NodeAges(t, scope), bytes, nodeIds[i], nodeIds[j]);
    assert j < |edgeIds| ==> Precedes(EdgeAges(t, scope), bytes, edgeIds[i], edgeIds[j]);
  }

  lemma FirstIsLeast(created: map<Uuid, Time>, bytes: Uuid -> nat, a: seq<Uuid>, x: Uuid)
    requires InDiskOrder(created, bytes, a) && x in a
    ensures x in created && a[0] in created && (x == a[0] || Precedes(created, bytes, a[0], x))
  {
    var i :| 0 <= i < |a| && a[i] == x;
  }

  lemma RestInOrder(created: map<Uuid, Time>, bytes: Uuid -> nat, a: seq<Uuid>)
    requires InDiskOrder(created, bytes, a) && a != []
    ensures InDiskOrder(created, bytes, a[1..])
    ensures forall x :: x in a[1..] <==> x in a && x != a[0]
  {
    forall i | 0 <= i < |a| - 1 ensures a[1..][i] != a[0] { assert Precedes(created, bytes, a[0], a[i + 1]); }
    assert a == [a[0]] + a[1..];
  }

  /** The rows have one order, so successive windows are cut from one listing. */
  lemma {:induction false} DiskOrderUnique(created: map<Uuid, Time>, bytes: Uuid -> nat, a: seq<Uuid>, b: seq<Uuid>)
    requires InDiskOrder(created, bytes, a) && InDiskOrder(created, bytes, b)
    requires forall x :: x in a <==> x in b
    ensures a == b
  {
    HasMember(a);
    HasMember(b);
    if a != [] {
      assert a[0] in b && b[0] in a;
      FirstIsLeast(created, bytes, a, b[0]);
      FirstIsLeast(created, bytes, b, a[0]);
      assert a[0] == b[0];
      RestInOrder(created, bytes, a);
      RestInOrder(created, bytes, b);
      hide InDiskOrder;
      DiskOrderUnique(created, bytes, a[1..], b[1..]);
      assert a == [a[0]] + a[1..] && b == [b[0]] + b[1..];
    }
  }

  // ---------------------------------------------------------------- all pages together

  /** The edge is on the `k`-th page of size `limit`. */
  ghost predicate OnPage(edges: map<EdgeId, ConceptEdge>, nodeIds: seq<NodeId>, edgeIds: seq<EdgeId>, limit: nat,
                         k: nat, e: EdgeId) {
    && e in edges && e in Window(edgeIds, limit, k * limit)
    && edges[e].from in Window(nodeIds, limit, k * limit) && edges[e].to in Window(nodeIds, limit, k * limit)
  }

  /** That is what loading the page comes to. */
  lemma OnPageIffLoaded(t: Tables, scope: ScopeId, nodeIds: seq<NodeId>, edgeIds: seq<EdgeId>, limit: nat, k: nat,
                        e: EdgeId)
    requires Untampered(t) && ListsKeys(ScopedNodes(t, scope), nodeIds) && ListsKeys(ScopedEdges(t, scope), edgeIds)
    ensures var nodes, edges := ScopedNodes(t, scope), ScopedEdges(t, scope);
            var pageNodes, pageEdges := Window(nodeIds, limit, k * limit), Window(edgeIds, limit, k * limit);
            && Keyed(nodes, NodeKey, pageNodes) && Keyed(edges, EdgeKey, pageEdges)
            && (OnPage(edges, nodeIds, edgeIds, limit, k, e) <==>
                e in LoadPage(Payloads(nodes, pageNodes), Payloads(edges, pageEdges)).graph.edges)
  {
    var nodes, edges := ScopedNodes(t, scope), ScopedEdges(t, scope);
    hide Coherent, Untampered, Payloads, LoadPage, ListsKeys, Window, ScopedNodes, ScopedEdges, NoDup, PageLoaded;
    PageExact(t, scope, nodeIds, edgeIds, limit, k * limit);
    var pageNodes, pageEdges := Window(nodeIds, limit, k * limit), Window(edgeIds, limit, k * limit);
    PageEdge(nodes, edges, pageNodes, pageEdges, LoadPage(Payloads(nodes, pageNodes), Payloads(edges, pageEdges)), e);
  }

  lemma PageEdge(nodes: map<NodeId, ConceptNode>, edges: map<EdgeId, ConceptEdge>, nodeIds: seq<NodeId>,
                 edgeIds: seq<EdgeId>, r: Effect<(nat, nat)>, e: EdgeId)
    requires Keyed(nodes, NodeKey, nodeIds) && PageLoaded(nodes, edges, nodeIds, edgeIds, r)
    ensures e in r.graph.edges <==> e in edges && e in edgeIds && edges[e].from in nodeIds && edges[e].to in nodeIds
  {
    hide Coherent, NoDup;
    assert forall n :: n in Restrict(nodes, nodeIds) <==> n in nodeIds;
  }

  lemma PageOf(ids: seq<Uuid>, limit: nat, k: nat, i: nat)
    requires NoDup(ids) && limit > 0 && i < |ids|
    ensures ids[i] in Window(ids, limit, k * limit) <==> k == i / limit
  {
    WindowIs(ids, limit, k * limit, ids[i]);
    Quotient(i, limit, k);
  }

  lemma Quotient(i: nat, limit: nat, k: nat)
    requires limit > 0
    ensures k * limit <= i < k * limit + limit <==> k == i / limit
  {
    var q, r := i / limit, i % limit;
    assert i == q * limit + r;
    if k < q { assert (k + 1) * limit <= q * limit; }
    if k > q { assert (q + 1) * limit <= k * limit; }
  }

  /** Going through all pages misses every edge whose row and two ends do not fall on one and the same page. */
  lemma PagedEdgeIff(edges: map<EdgeId, ConceptEdge>, nodeIds: seq<NodeId>, edgeIds: seq<EdgeId>, limit: nat,
                     j: nat, a: nat, b: nat)
    requires NoDup(nodeIds) && NoDup(edgeIds) && limit > 0
    requires j < |edgeIds| && a < |nodeIds| && b < |nodeIds|
    requires edgeIds[j] in edges && edges[edgeIds[j]].from == nodeIds[a] && edges[edgeIds[j]].to == nodeIds[b]
    ensures (exists k: nat :: OnPage(edges, nodeIds, edgeIds, limit, k, edgeIds[j])) <==>
            j / limit == a / limit == b / limit
  {
    hide NoDup, Window;
    forall k: nat
      ensures OnPage(edges, nodeIds, edgeIds, limit, k, edgeIds[j]) <==> k == j / limit == a / limit == b / limit
    {
      PageOf(edgeIds, limit, k, j);
      PageOf(nodeIds, limit, k, a);
      PageOf(nodeIds, limit, k, b);
    }
    var q: nat := j / limit;
    assert OnPage(edges, nodeIds, edgeIds, limit, q, edgeIds[j]) <==> q == j / limit == a / limit == b / limit;
  }

  // ---------------------------------------------------------------- neighbours straight from disk

  /** The edge rows of `scope` at `n`. */
  function NeighborAges(t: Tables, scope: ScopeId, n: NodeId): map<EdgeId, Time> {
    map e | e in EdgeAges(t, scope) && (t.edges[e].from == n || t.edges[e].to == n) :: t.edges[e].createdAt
  }

  ghost function NeighborRows(t: Tables, scope: ScopeId, n: NodeId): map<EdgeId, ConceptEdge> {
    map e | e in NeighborAges(t, scope, n) :: t.edges[e].payload
  }

  lemma {:induction false} NoDupCount<T>(s: seq<T>, x: T)
    requires NoDup(s)
    ensures multiset(s)[x] == if x in s then 1 else 0
  {
    if s != [] {
      var front, last := s[..|s| - 1], s[|s| - 1];
      assert s == front + [last];
      NoDupCount(front, x);
    }
  }

  /** What the disk query returns: each row once. */
  lemma DiskRows(t: Tables, scope: ScopeId, n: NodeId, ids: seq<EdgeId>)
    requires Untampered(t) && ListsKeys(NeighborRows(t, scope, n), ids)
    ensures var rows := NeighborRows(t, scope, n);
            && (forall i :: 0 <= i < |ids| ==> ids[i] in rows)
            && NoDup(Payloads(rows, ids))
            && forall x :: x in Payloads(rows, ids) <==> x.id in rows && rows[x.id] == x
  {
    var rows := NeighborRows(t, scope, n);
    ListsKeysIndexed(rows, ids);
    var disk := Payloads(rows, ids);
    assert forall i :: 0 <= i < |ids| ==> disk[i].id == ids[i];
    forall x: ConceptEdge | x.id in rows && rows[x.id] == x ensures x in disk {
      var i :| 0 <= i < |ids| && ids[i] == x.id;
      assert disk[i] == x;
    }
  }

  /** In a loaded scope the disk query at a node finds the edges that memory lists there, each once: the two differ
      exactly by the node's self-loops, which memory lists twice. */
  lemma DiskAgreesWithMemory(t: Tables, scope: ScopeId, nodeIds: seq<NodeId>, edgeIds: seq<EdgeId>, n: NodeId,
                             ids: seq<EdgeId>)
    requires Untampered(t) && ListsKeys(ScopedNodes(t, scope), nodeIds) && ListsKeys(ScopedEdges(t, scope), edgeIds)
    requires n in ScopedNodes(t, scope) && ListsKeys(NeighborRows(t, scope, n), ids)
    ensures (forall i :: 0 <= i < |nodeIds| ==> nodeIds[i] in ScopedNodes(t, scope))
            && (forall i :: 0 <= i < |edgeIds| ==> edgeIds[i] in ScopedEdges(t, scope))
            && (forall i :: 0 <= i < |ids| ==> ids[i] in NeighborRows(t, scope, n))
    ensures var r := LoadGraph(Payloads(ScopedNodes(t, scope), nodeIds), Payloads(ScopedEdges(t, scope), edgeIds));
            var disk := Payloads(NeighborRows(t, scope, n), ids);
            r.result.Ok? ==>
              && (forall x :: multiset(EdgesAt(r.graph, n))[x]
                           == multiset(disk)[x] + if x in disk && x.from == x.to then 1 else 0)
              && (multiset(EdgesAt(r.graph, n)) == multiset(disk) <==> forall x :: x in disk ==> x.from != x.to)
  {
    ListsKeysIndexed(ScopedNodes(t, scope), nodeIds);
    ListsKeysIndexed(ScopedEdges(t, scope), edgeIds);
    LoadScopeExact(t, scope, nodeIds, edgeIds);
    DiskRows(t, scope, n, ids);
    hide Coherent, LoadGraph, ListsKeys, EdgesAt, Payloads, NoDup;
    var r := LoadGraph(Payloads(ScopedNodes(t, scope), nodeIds), Payloads(ScopedEdges(t, scope), edgeIds));
    var disk := Payloads(NeighborRows(t, scope, n), ids);
    if r.result.Ok? { SelfLoopsTwice(r.graph, n, disk); }
  }

  lemma SelfLoopsTwice(g: State, n: NodeId, disk: seq<ConceptEdge>)
    requires Coherent(g) && n in g.nodes && NoDup(disk)
    requires forall x :: x in disk <==> x.id in g.edges && g.edges[x.id] == x && (x.from == n || x.to == n)
    ensures forall x :: multiset(EdgesAt(g, n))[x] == multiset(disk)[x] + if x in disk && x.from == x.to then 1 else 0
    ensures multiset(EdgesAt(g, n)) == multiset(disk) <==> forall x :: x in disk ==> x.from != x.to
  {
    hide Coherent, EdgesAt, NoDup;
    Incremental.EdgesAtIncident(g, n);
    forall x ensures multiset(EdgesAt(g, n))[x] == multiset(disk)[x] + if x in disk && x.from == x.to then 1 else 0 {
      NoDupCount(disk, x);
      if x in EdgesAt(g, n) { EdgesAtCount(g, n, x.id); }
    }
  }

  /** Asking the disk for the neighbours of both ends finds every edge of the scope between nodes of the scope, among
      them every edge that no page loads. */
  lemma MissedEdgeRecovered(t: Tables, scope: ScopeId, nodeIds: seq<NodeId>, edgeIds: seq<EdgeId>, limit: nat,
                            j: nat, a: nat, b: nat)
    requires Untampered(t) && ListsKeys(ScopedNodes(t, scope), nodeIds) && ListsKeys(ScopedEdges(t, scope), edgeIds)
    requires limit > 0 && j < |edgeIds| && a < |nodeIds| && b < |nodeIds| && edgeIds[j] in ScopedEdges(t, scope)
    requires ScopedEdges(t, scope)[edgeIds[j]].from == nodeIds[a] && ScopedEdges(t, scope)[edgeIds[j]].to == nodeIds[b]
    ensures (exists k: nat :: OnPage(ScopedEdges(t, scope), nodeIds, edgeIds, limit, k, edgeIds[j])) <==>
            j / limit == a / limit == b / limit
    ensures edgeIds[j] in NeighborRows(t, scope, nodeIds[a]) && edgeIds[j] in NeighborRows(t, scope, nodeIds[b])
  {
    PagedEdgeIff(ScopedEdges(t, scope), nodeIds, edgeIds, limit, j, a, b);
  }
}
