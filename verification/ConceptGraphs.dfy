/** The in-memory concept graph as the object it is: four maps changed in place, and the searches over them. */
module ConceptGraphs {
  import opened Basics
  import opened Graph
  import opened Reach

  // ---------------------------------------------------------------- reading

  /** The edges that `ids` name, in list order; ids without an edge are skipped. */
  function EdgesFor(g: State, ids: seq<EdgeId>): seq<ConceptEdge> {
    if ids == [] then []
    else
      var front, last := EdgesFor(g, ids[..|ids| - 1]), ids[|ids| - 1];
      if last in g.edges then front + [g.edges[last]] else front
  }

  function EdgesAt(g: State, n: NodeId): seq<ConceptEdge> {
    EdgesFor(g, List(g.outgoing, n)) + EdgesFor(g, List(g.incoming, n))
  }

  function Targets(edges: seq<ConceptEdge>, relation: Option<RelationType>): seq<NodeId> {
    if edges == [] then []
    else
      var front, last := Targets(edges[..|edges| - 1], relation), edges[|edges| - 1];
      if relation.Some? && relation.value != last.relation then front else front + [last.to]
  }

  function FirstOccurrences(s: seq<NodeId>): seq<NodeId> {
    if s == [] then []
    else
      var front, last := FirstOccurrences(s[..|s| - 1]), s[|s| - 1];
      if last in front then front else front + [last]
  }

  function NeighborsOf(g: State, n: NodeId, relation: Option<RelationType>): seq<NodeId> {
    FirstOccurrences(Targets(EdgesFor(g, List(g.outgoing, n)), relation))
  }

  lemma {:induction false} EdgesForMembers(g: State, ids: seq<EdgeId>)
    ensures forall x :: x in EdgesFor(g, ids) <==> exists e :: e in ids && e in g.edges && x == g.edges[e]
  {
    if ids != [] {
      var front, last := ids[..|ids| - 1], ids[|ids| - 1];
      EdgesForMembers(g, front);
      assert ids == front + [last];
      forall x | x in EdgesFor(g, ids) ensures exists e :: e in ids && e in g.edges && x == g.edges[e] {
        if x in EdgesFor(g, front) {
          var e :| e in front && e in g.edges && x == g.edges[e];
          assert e in ids;
        }
      }
    }
  }

  lemma {:induction false} TargetsMembers(edges: seq<ConceptEdge>, relation: Option<RelationType>)
    ensures forall n :: n in Targets(edges, relation) <==>
              exists e :: e in edges && e.to == n && (relation.Some? ==> relation.value == e.relation)
  {
    if edges != [] {
      var front, last := edges[..|edges| - 1], edges[|edges| - 1];
      TargetsMembers(front, relation);
      assert edges == front + [last];
      forall n | n in Targets(edges, relation)
        ensures exists e :: e in edges && e.to == n && (relation.Some? ==> relation.value == e.relation)
      {
        if n in Targets(front, relation) {
          var e :| e in front && e.to == n && (relation.Some? ==> relation.value == e.relation);
          assert e in edges;
        } else {
          assert last in edges;
        }
      }
    }
  }

  lemma {:induction false} FirstOccurrencesMembers(s: seq<NodeId>)
    ensures NoDup(FirstOccurrences(s))
    ensures forall n :: n in FirstOccurrences(s) <==> n in s
  {
    if s != [] {
      var front := s[..|s| - 1];
      FirstOccurrencesMembers(front);
      assert s == front + [s[|s| - 1]];
    }
  }

  lemma {:induction false} EdgesForCount(g: State, ids: seq<EdgeId>, e: EdgeId)
    requires NoDup(ids) && e in g.edges
    requires forall x, y :: x in g.edges && y in g.edges && g.edges[x] == g.edges[y] ==> x == y
    ensures multiset(EdgesFor(g, ids))[g.edges[e]] == if e in ids then 1 else 0
  {
    if ids != [] {
      var front, last := ids[..|ids| - 1], ids[|ids| - 1];
      EdgesForCount(g, front, e);
      assert ids == front + [last];
      assert last !in front;
    }
  }

  /** `get_edges` lists an incident edge once, a self-loop twice, and nothing else. */
  lemma EdgesAtCount(g: State, n: NodeId, e: EdgeId)
    requires Coherent(g) && n in g.nodes && e in g.edges
    ensures multiset(EdgesAt(g, n))[g.edges[e]]
         == (if g.edges[e].from == n then 1 else 0) + (if g.edges[e].to == n then 1 else 0)
  {
    assert ListedAt(g, n);
    assert forall x, y :: x in g.edges && y in g.edges && g.edges[x] == g.edges[y] ==> g.edges[x].id == g.edges[y].id;
    EdgesForCount(g, g.outgoing[n], e);
    EdgesForCount(g, g.incoming[n], e);
  }

  /** One turn of the neighbour loop. */
  lemma NeighborsPush(g: State, ids: seq<EdgeId>, i: nat, relation: Option<RelationType>)
    requires i < |ids|
    ensures var before := FirstOccurrences(Targets(EdgesFor(g, ids[..i]), relation));
            FirstOccurrences(Targets(EdgesFor(g, ids[..i + 1]), relation))
            == if ids[i] !in g.edges || (relation.Some? && relation.value != g.edges[ids[i]].relation)
                  || g.edges[ids[i]].to in before
               then before else before + [g.edges[ids[i]].to]
  {
    assert ids[..i + 1][..i] == ids[..i];
    if ids[i] in g.edges {
      var edge := g.edges[ids[i]];
      var edges := EdgesFor(g, ids[..i]);
      assert EdgesFor(g, ids[..i + 1]) == edges + [edge];
      assert (edges + [edge])[..|edges|] == edges;
      var targets := Targets(edges, relation);
      assert (targets + [edge.to])[..|targets|] == targets;
    }
  }

  // ---------------------------------------------------------------- one relation as a step map

  /** Steps along `relation` as the adjacency lists give them. */
  ghost function ListedSteps(g: State, relation: RelationType): Steps {
    map n | n in g.outgoing :: Elements(NeighborsOf(g, n, Some(relation)))
  }

  /** Steps along `relation` as the edge map gives them. */
  ghost function EdgeSteps(g: State, relation: RelationType): Steps {
    map n | n in g.nodes :: set e | e in Leaving(g, g.edges.Keys, n) && g.edges[e].relation == relation :: g.edges[e].to
  }

  lemma NeighborsMembers(g: State, n: NodeId, relation: Option<RelationType>)
    ensures NoDup(NeighborsOf(g, n, relation))
    ensures forall m :: m in NeighborsOf(g, n, relation) <==>
              exists e :: e in List(g.outgoing, n) && e in g.edges && g.edges[e].to == m
                          && (relation.Some? ==> relation.value == g.edges[e].relation)
  {
    var ids := List(g.outgoing, n);
    var edges := EdgesFor(g, ids);
    EdgesForMembers(g, ids);
    TargetsMembers(edges, relation);
    FirstOccurrencesMembers(Targets(edges, relation));
    forall m | m in NeighborsOf(g, n, relation)
      ensures exists e ::
                && e in ids && e in g.edges && g.edges[e].to == m
                && (relation.Some? ==> relation.value == g.edges[e].relation)
    {
      var x :| x in edges && x.to == m && (relation.Some? ==> relation.value == x.relation);
      var e :| e in ids && e in g.edges && x == g.edges[e];
    }
  }

  /** `e` leads to `m` and passes the filter. */
  ghost predicate LeadsTo(g: State, e: EdgeId, relation: Option<RelationType>, m: NodeId) {
    e in g.edges && g.edges[e].to == m && (relation == None || relation == Some(g.edges[e].relation))
  }

  ghost predicate ListLeadsTo(g: State, ids: seq<EdgeId>, relation: Option<RelationType>, m: NodeId) {
    exists i :: 0 <= i < |ids| && LeadsTo(g, ids[i], relation, m)
  }

  lemma ListLeadsNext(g: State, front: seq<EdgeId>, last: EdgeId, relation: Option<RelationType>, m: NodeId)
    ensures ListLeadsTo(g, front + [last], relation, m) <==>
            ListLeadsTo(g, front, relation, m) || LeadsTo(g, last, relation, m)
  {
    hide LeadsTo;
    var ids := front + [last];
    assert ids[|front|] == last;
    if i :| 0 <= i < |front| && LeadsTo(g, front[i], relation, m) { assert LeadsTo(g, ids[i], relation, m); }
    if i :| 0 <= i < |ids| && LeadsTo(g, ids[i], relation, m) {
      assert i < |front| ==> LeadsTo(g, front[i], relation, m);
    }
  }

  /** The neighbours that a list of edge ids leads to. */
  ghost function ListedNeighbors(g: State, ids: seq<EdgeId>, relation: Option<RelationType>): seq<NodeId> {
    FirstOccurrences(Targets(EdgesFor(g, ids), relation))
  }

  lemma ListedNext(g: State, front: seq<EdgeId>, last: EdgeId, relation: Option<RelationType>)
    ensures var before, after := ListedNeighbors(g, front, relation), ListedNeighbors(g, front + [last], relation);
            || (after == before && forall m :: LeadsTo(g, last, relation, m) ==> m in before)
            || (exists m :: m !in before && LeadsTo(g, last, relation, m) && after == before + [m])
  {
    NeighborsPush(g, front + [last], |front|, relation);
    assert (front + [last])[..|front|] == front && (front + [last])[..|front| + 1] == front + [last];
    hide FirstOccurrences, Targets, EdgesFor;
    if last in g.edges {
      assert relation == Some(g.edges[last].relation) ==> LeadsTo(g, last, relation, g.edges[last].to);
    }
  }

  lemma {:induction false} NeighborsFromLists(g: State, ids: seq<EdgeId>, relation: Option<RelationType>, m: NodeId)
    ensures m in ListedNeighbors(g, ids, relation) <==> ListLeadsTo(g, ids, relation, m)
    decreases |ids|
  {
    if ids != [] {
      var front, last := ids[..|ids| - 1], ids[|ids| - 1];
      assert ids == front + [last];
      hide ListedNeighbors, ListLeadsTo;
      NeighborsFromLists(g, front, relation, m);
      ListedNext(g, front, last, relation);
      ListLeadsNext(g, front, last, relation, m);
    }
  }

  /** Neighbours come in the order in which the lists first lead to them. */
  lemma {:induction false} NeighborsInOrder(g: State, ids: seq<EdgeId>, relation: Option<RelationType>, a: nat, b: nat,
                                            j: nat)
    requires a < b < |ListedNeighbors(g, ids, relation)|
    requires j < |ids| && LeadsTo(g, ids[j], relation, ListedNeighbors(g, ids, relation)[b])
    ensures ListLeadsTo(g, ids[..j], relation, ListedNeighbors(g, ids, relation)[a])
    decreases |ids|
  {
    var front, last, r := ids[..|ids| - 1], ids[|ids| - 1], ListedNeighbors(g, ids, relation);
    var before := ListedNeighbors(g, front, relation);
    assert ids == front + [last];
    ListedNext(g, front, last, relation);
    hide ListedNeighbors;
    if b < |before| {
      NeighborsFromLists(g, front, relation, r[b]);
      assert r[b] in before;
      var k := EarlierLead(g, ids, relation, r[b], j);
      NeighborsInOrder(g, front, relation, a, b, k);
      PrefixLeads(g, front[..k], ids[..j], relation, r[a]);
    } else {
      NeighborsFromLists(g, front, relation, r[a]);
      NeighborsFromLists(g, front, relation, r[b]);
      LeadInFront(g, front, last, relation, r[b], j);
      assert ids[..j] == front;
    }
  }

  lemma EarlierLead(g: State, ids: seq<EdgeId>, relation: Option<RelationType>, m: NodeId, j: nat) returns (k: nat)
    requires j < |ids| && LeadsTo(g, ids[j], relation, m) && ListLeadsTo(g, ids[..|ids| - 1], relation, m)
    ensures k <= j && k < |ids| - 1 && LeadsTo(g, ids[..|ids| - 1][k], relation, m)
  {
    hide LeadsTo;
    if j < |ids| - 1 { k := j; } else { k :| k < |ids| - 1 && LeadsTo(g, ids[..|ids| - 1][k], relation, m); }
  }

  lemma PrefixLeads(g: State, a: seq<EdgeId>, b: seq<EdgeId>, relation: Option<RelationType>, m: NodeId)
    requires a <= b && ListLeadsTo(g, a, relation, m)
    ensures ListLeadsTo(g, b, relation, m)
  {
    hide LeadsTo;
    var i :| 0 <= i < |a| && LeadsTo(g, a[i], relation, m);
    assert b[i] == a[i];
  }

  lemma LeadInFront(g: State, front: seq<EdgeId>, last: EdgeId, relation: Option<RelationType>, m: NodeId, j: nat)
    requires j <= |front| && LeadsTo(g, (front + [last])[j], relation, m)
    ensures j == |front| || ListLeadsTo(g, front, relation, m)
  {
    hide LeadsTo;
    assert j < |front| ==> (front + [last])[j] == front[j];
  }

  lemma {:induction false} EdgesForInOrder(g: State, ids: seq<EdgeId>)
    requires forall i :: 0 <= i < |ids| ==> ids[i] in g.edges
    ensures |EdgesFor(g, ids)| == |ids| && forall i :: 0 <= i < |ids| ==> EdgesFor(g, ids)[i] == g.edges[ids[i]]
  {
    if ids != [] { EdgesForInOrder(g, ids[..|ids| - 1]); }
  }

  /** On a coherent graph `get_edges` follows the outgoing list and then the incoming one. */
  lemma EdgesAtInOrder(g: State, n: NodeId)
    requires Coherent(g) && n in g.nodes
    ensures n in g.outgoing && n in g.incoming && |EdgesAt(g, n)| == |g.outgoing[n]| + |g.incoming[n]|
    ensures forall i :: 0 <= i < |EdgesAt(g, n)| ==>
              var e := if i < |g.outgoing[n]| then g.outgoing[n][i] else g.incoming[n][i - |g.outgoing[n]|];
              e in g.edges && EdgesAt(g, n)[i] == g.edges[e]
  {
    ListedEdgesExist(g, n);
    hide Coherent, EdgesFor;
    EdgesForInOrder(g, g.outgoing[n]);
    EdgesForInOrder(g, g.incoming[n]);
  }

  lemma ListedEdgesExist(g: State, n: NodeId)
    requires Coherent(g) && n in g.nodes
    ensures n in g.outgoing && forall i :: 0 <= i < |g.outgoing[n]| ==> g.outgoing[n][i] in g.edges
    ensures n in g.incoming && forall i :: 0 <= i < |g.incoming[n]| ==> g.incoming[n][i] in g.edges
  {
    assert ListedAt(g, n);
    hide Coherent;
    assert forall i :: 0 <= i < |g.outgoing[n]| ==> g.outgoing[n][i] in g.outgoing[n];
    assert forall i :: 0 <= i < |g.incoming[n]| ==> g.incoming[n][i] in g.incoming[n];
  }

  lemma NeighborsAreTargets(g: State, n: NodeId, relation: RelationType)
    requires Coherent(g) && n in g.nodes
    ensures Elements(NeighborsOf(g, n, Some(relation)))
         == set e | e in Leaving(g, g.edges.Keys, n) && g.edges[e].relation == relation :: g.edges[e].to
  {
    assert ListedAt(g, n);
    hide NeighborsOf;
    NeighborsMembers(g, n, Some(relation));
  }

  /** On a coherent graph the two step maps agree. */
  lemma StepsAgree(g: State, relation: RelationType)
    requires Coherent(g)
    ensures ListedSteps(g, relation) == EdgeSteps(g, relation)
  {
    hide ListedAt, Anchored, Elements, NeighborsOf, Leaving;
    forall n | n in g.nodes ensures ListedSteps(g, relation)[n] == EdgeSteps(g, relation)[n] {
      NeighborsAreTargets(g, n, relation);
    }
  }

  /** Everything a search can touch. */
  ghost function Universe(g: State): set<NodeId> {
    g.nodes.Keys + (set e | e in g.edges :: g.edges[e].from) + (set e | e in g.edges :: g.edges[e].to)
  }

  // ---------------------------------------------------------------- the object

  class ConceptGraph {
    var nodes: map<NodeId, ConceptNode>
    var edges: map<EdgeId, ConceptEdge>
    var outgoing: Adjacency
    var incoming: Adjacency

    ghost function View(): State
      reads this
    {
      State(nodes, edges, outgoing, incoming)
    }

    constructor ()
      ensures View() == EMPTY
    {
      nodes, edges, outgoing, incoming := map[], map[], map[], map[];
    }

    method AddNode(node: ConceptNode) returns (r: Result<NodeId, GraphError>)
      modifies this
      ensures Effect(View(), r) == Graph.AddNode(old(View()), node)
    {
      if node.id in nodes {
        return Err(DuplicateNode(node.id));
      }
      nodes := nodes[node.id := node];
      outgoing := OrDefault(outgoing, node.id);
      incoming := OrDefault(incoming, node.id);
      return Ok(node.id);
    }

    method AddEdge(edge: ConceptEdge) returns (r: Result<EdgeId, GraphError>)
      modifies this
      ensures Effect(View(), r) == Graph.AddEdge(old(View()), edge)
    {
      if edge.from !in nodes {
        return Err(DanglingEdge(edge.from));
      }
      if edge.to !in nodes {
        return Err(DanglingEdge(edge.to));
      }
      outgoing := Push(outgoing, edge.from, edge.id);
      incoming := Push(incoming, edge.to, edge.id);
      edges := edges[edge.id := edge];
      return Ok(edge.id);
    }

    method RemoveNode(id: NodeId) returns (r: Result<ConceptNode, GraphError>)
      modifies this
      ensures Effect(View(), r) == Graph.RemoveNode(old(View()), id)
    {
      if id !in nodes {
        return Err(NodeNotFound(id));
      }
      ghost var g := View();
      var node := nodes[id];
      nodes := nodes - {id};
      var toRemove := (set e | e in List(outgoing, id)) + (set e | e in List(incoming, id));
      outgoing := outgoing - {id};
      incoming := incoming - {id};
      ghost var gone := {};
      WithoutStart(g, id);
      while toRemove != {}
        invariant gone + toRemove == Doomed(g, id) && gone !! toRemove
        invariant View() == Without(g, id, gone)
        decreases toRemove
      {
        var e :| e in toRemove;
        WithoutStep(g, id, gone, e);
        if e in edges {
          var edge := edges[e];
          edges := edges - {e};
          outgoing := RetainAt(outgoing, edge.from, e);
          incoming := RetainAt(incoming, edge.to, e);
        }
        toRemove := toRemove - {e};
        gone := gone + {e};
      }
      assert gone == Doomed(g, id);
      return Ok(node);
    }

    method RemoveEdge(id: EdgeId) returns (r: Result<ConceptEdge, GraphError>)
      modifies this
      ensures Effect(View(), r) == Graph.RemoveEdge(old(View()), id)
    {
      if id !in edges {
        return Err(EdgeNotFound(id));
      }
      var edge := edges[id];
      edges := edges - {id};
      outgoing := RetainAt(outgoing, edge.from, id);
      incoming := RetainAt(incoming, edge.to, id);
      return Ok(edge);
    }

    method GetEdges(id: NodeId) returns (out: seq<ConceptEdge>)
      ensures out == EdgesAt(View(), id)
    {
      out := [];
      if id in outgoing {
        var ids := outgoing[id];
        for i := 0 to |ids|
          invariant out == EdgesFor(View(), ids[..i])
        {
          assert ids[..i + 1][..i] == ids[..i];
          if ids[i] in edges { out := out + [edges[ids[i]]]; }
        }
        assert ids[..|ids|] == ids;
      }
      ghost var first := out;
      if id in incoming {
        var ids := incoming[id];
        for i := 0 to |ids|
          invariant out == first + EdgesFor(View(), ids[..i])
        {
          assert ids[..i + 1][..i] == ids[..i];
          if ids[i] in edges { out := out + [edges[ids[i]]]; }
        }
        assert ids[..|ids|] == ids;
      }
    }

    method Neighbors(id: NodeId, relation: Option<RelationType>) returns (out: seq<NodeId>)
      ensures out == NeighborsOf(View(), id, relation)
    {
      out := [];
      if id !in outgoing { return; }
      var ids := outgoing[id];
      var seen: set<NodeId> := {};
      for i := 0 to |ids|
        invariant out == FirstOccurrences(Targets(EdgesFor(View(), ids[..i]), relation))
        invariant forall n :: n in seen <==> n in out
      {
        NeighborsPush(View(), ids, i, relation);
        if ids[i] in edges {
          var edge := edges[ids[i]];
          if relation.Some? && relation.value != edge.relation { continue; }
          if edge.to !in seen {
            seen := seen + {edge.to};
            out := out + [edge.to];
          }
        }
      }
      assert ids[..|ids|] == ids;
    }

    method SupersedeNode(predecessor: NodeId, successor: NodeId, edgeId: EdgeId, now: Time)
      returns (r: Result<EdgeId, GraphError>)
      modifies this
      ensures Effect(View(), r) == Graph.SupersedeNode(old(View()), predecessor, successor, edgeId, now)
    {
      if predecessor == successor {
        return Err(SelfSupersession(predecessor));
      }
      if successor !in nodes {
        return Err(NodeNotFound(successor));
      }
      if predecessor !in nodes {
        return Err(NodeNotFound(predecessor));
      }
      var pred := nodes[predecessor];
      nodes := nodes[predecessor := pred.MarkSupersededBy(successor, now)];
      r := AddEdge(NewEdge(edgeId, predecessor, successor, Supersedes, pred.scopeId, now));
    }

    method MarkContradiction(a: NodeId, b: NodeId, e1: EdgeId, e2: EdgeId, now: Time)
      returns (r: Result<(EdgeId, EdgeId), GraphError>)
      modifies this
      ensures Effect(View(), r) == Graph.MarkContradiction(old(View()), a, b, e1, e2, now)
    {
      if a == b {
        return Err(SelfContradiction(a));
      }
      if a !in nodes {
        return Err(NodeNotFound(a));
      }
      if b !in nodes {
        return Err(NodeNotFound(b));
      }
      var aScope, bScope := nodes[a].scopeId, nodes[b].scopeId;
      nodes := nodes[a := nodes[a].MarkContradictedBy(b, now)];
      nodes := nodes[b := nodes[b].MarkContradictedBy(a, now)];
      var r1 := AddEdge(NewEdge(e1, a, b, Contradicts, aScope, now));
      var r2 := AddEdge(NewEdge(e2, b, a, Contradicts, bScope, now));
      return Ok((r1.value, r2.value));
    }

    /** Typed breadth-first traversal: exactly the vertices within the bound, nearest first, without the start. */
    method TraverseTyped(start: NodeId, relation: RelationType, maxDepth: Option<nat>) returns (out: seq<NodeId>)
      ensures NoDup(out) && start !in out
      ensures forall v :: v in out <==> v != start && Within(ListedSteps(View(), relation), {start}, maxDepth, v)
      ensures NearestFirst(ListedSteps(View(), relation), {start}, out)
      ensures Coherent(View()) ==> ListedSteps(View(), relation) == EdgeSteps(View(), relation)
    {
      hide Searching, ByDepth, Listing, Within, NearestFirst, ListedSteps, EdgeSteps, Coherent, Unseen, NeighborsOf,
          Stops, Universe;
      ghost var g := View();
      ghost var steps := ListedSteps(g, relation);
      ghost var universe := Universe(g) + {start};
      var visited := {start};
      var frontier: Queue := [Stop(start, 0)];
      out := [];
      ghost var found := Found(map[start := 0], map[]);
      TraversalStart(steps, maxDepth, start);
      while frontier != []
        invariant Searching(steps, {start}, maxDepth, frontier, found) && View() == g
        invariant visited == found.depth.Keys && ByDepth(found, out)
        invariant Listing(start, visited, out) && visited <= universe
        decreases universe - visited, |frontier|
      {
        var Stop(node, d) := frontier[0];
        ghost var queue := frontier;
        frontier := frontier[1..];
        if maxDepth.Some? && d >= maxDepth.value {
          SearchSkip(steps, {start}, maxDepth, queue, found);
          continue;
        }
        var next := Neighbors(node, Some(relation));
        ghost var known, listed := visited, out;
        UnseenStart(next, known, d + 1);
        for i := 0 to |next|
          invariant visited == known + Elements(Unseen(next[..i], known))
          invariant out == listed + Unseen(next[..i], known)
          invariant frontier == queue[1..] + Stops(Unseen(next[..i], known), d + 1)
        {
          UnseenPush(next, i, known);
          if next[i] !in visited {
            visited := visited + {next[i]};
            out := out + [next[i]];
            frontier := frontier + [Stop(next[i], d + 1)];
          }
        }
        assert next[..|next|] == next;
        NextIsNeighbors(g, relation, node);
        UnseenMembers(next, known);
        found := SearchExpand(steps, {start}, maxDepth, queue, found, next, listed);
        ListingExpand(start, known, listed, next);
        UnseenGrows(next, known);
      }
      TraversalEnd(start, visited, out);
      SearchExact(steps, {start}, maxDepth, found);
      SearchNearestFirst(steps, {start}, maxDepth, found, out);
      if Coherent(g) { StepsAgree(g, relation); }
    }
  }

  /** The nodes listed so far are the visited ones other than the start, each once. */
  ghost predicate Listing(start: NodeId, visited: set<NodeId>, out: seq<NodeId>) {
    && (forall v :: v in visited <==> v == start || v in out)
    && NoDup(out) && start !in out
  }

  lemma ListingExpand(start: NodeId, visited: set<NodeId>, out: seq<NodeId>, next: seq<NodeId>)
    requires Listing(start, visited, out)
    ensures Listing(start, visited + Elements(Unseen(next, visited)), out + Unseen(next, visited))
  {
    var novel := Unseen(next, visited);
    UnseenMembers(next, visited);
    assert forall v :: v in Elements(novel) <==> v in novel;
    forall i, j | 0 <= i < j < |out + novel| ensures (out + novel)[i] != (out + novel)[j] {
      if i < |out| <= j { assert out[i] in out && novel[j - |out|] in novel; }
    }
  }

  lemma TraversalStart(steps: Steps, max: Option<nat>, start: NodeId)
    ensures Searching(steps, {start}, max, [Stop(start, 0)], Found(map[start := 0], map[]))
    ensures ByDepth(Found(map[start := 0], map[]), []) && Listing(start, {start}, [])
  {
    assert [Stop(start, 0)][0].node == start;
  }

  lemma TraversalEnd(start: NodeId, visited: set<NodeId>, out: seq<NodeId>)
    requires Listing(start, visited, out)
    ensures NoDup(out) && start !in out && forall v :: v in out <==> v in visited && v != start
  {}

  lemma NextIsNeighbors(g: State, relation: RelationType, n: NodeId)
    ensures Elements(NeighborsOf(g, n, Some(relation))) == Next(ListedSteps(g, relation), n)
    ensures Elements(NeighborsOf(g, n, Some(relation))) <= Universe(g)
  {
    NeighborsMembers(g, n, Some(relation));
  }

  lemma WithoutStart(g: State, id: NodeId)
    ensures Without(g, id, {}) == State(g.nodes - {id}, g.edges, g.outgoing - {id}, g.incoming - {id})
  {
    var h := Without(g, id, {});
    forall n | n in g.outgoing && n != id ensures h.outgoing[n] == g.outgoing[n] {
      PruneNothing(g.outgoing[n], Leaving(g, {}, n));
    }
    forall n | n in g.incoming && n != id ensures h.incoming[n] == g.incoming[n] {
      PruneNothing(g.incoming[n], Entering(g, {}, n));
    }
    assert h.outgoing == g.outgoing - {id} && h.incoming == g.incoming - {id};
    assert h.edges == g.edges;
  }

  lemma WithoutOne(lists: Adjacency, before: Adjacency, after: Adjacency, gone: NodeId -> set<EdgeId>,
                   at: Option<NodeId>, e: EdgeId)
    requires before.Keys == after.Keys <= lists.Keys
    requires forall n :: n in before ==> before[n] == Prune(lists[n], gone(n))
    requires forall n :: n in after ==> after[n] == Prune(lists[n], gone(n) + if at == Some(n) then {e} else {})
    ensures after == if at.Some? then RetainAt(before, at.value, e) else before
  {
    forall n | n in before ensures after[n] == if at == Some(n) then Prune(before[n], {e}) else before[n] {
      if at == Some(n) {
        PruneUnion(lists[n], gone(n), {e});
      } else {
        assert gone(n) + {} == gone(n);
      }
    }
  }

  /** One turn of the removal loop. */
  lemma WithoutStep(g: State, id: NodeId, gone: set<EdgeId>, e: EdgeId)
    requires e !in gone
    ensures var h, k := Without(g, id, gone), Without(g, id, gone + {e});
            && k.nodes == h.nodes
            && (e in h.edges <==> e in g.edges)
            && if e in h.edges then
                 && k.edges == h.edges - {e}
                 && k.outgoing == RetainAt(h.outgoing, h.edges[e].from, e)
                 && k.incoming == RetainAt(h.incoming, h.edges[e].to, e)
               else k == h
  {
    var h, k := Without(g, id, gone), Without(g, id, gone + {e});
    var from := if e in g.edges then Some(g.edges[e].from) else None;
    var to := if e in g.edges then Some(g.edges[e].to) else None;
    assert k.outgoing == if from.Some? then RetainAt(h.outgoing, from.value, e) else h.outgoing by {
      forall n | n in k.outgoing
        ensures k.outgoing[n] == Prune(g.outgoing[n], Leaving(g, gone, n) + if from == Some(n) then {e} else {})
      {
        assert Leaving(g, gone + {e}, n) == Leaving(g, gone, n) + if from == Some(n) then {e} else {};
      }
      WithoutOne(g.outgoing, h.outgoing, k.outgoing, n => Leaving(g, gone, n), from, e);
    }
    assert k.incoming == if to.Some? then RetainAt(h.incoming, to.value, e) else h.incoming by {
      forall n | n in k.incoming
        ensures k.incoming[n] == Prune(g.incoming[n], Entering(g, gone, n) + if to == Some(n) then {e} else {})
      {
        assert Entering(g, gone + {e}, n) == Entering(g, gone, n) + if to == Some(n) then {e} else {};
      }
      WithoutOne(g.incoming, h.incoming, k.incoming, n => Entering(g, gone, n), to, e);
    }
    assert k.edges == h.edges - {e};
    assert e !in g.edges ==> h.edges - {e} == h.edges;
  }
}
