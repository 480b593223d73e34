/** Projecting memory observations into a concept graph. */
module Projection {
  import opened Basics
  import opened Graph
  import opened ConceptGraphs

  datatype MemoryProjection = MemoryProjection(
    id: Uuid, scopeId: ScopeId, caption: string, definition: string, state: NodeState,
    supersededBy: Option<Uuid>, createdAt: Time, updatedAt: Time, metadata: string)
  {
    function IntoNode(): ConceptNode {
      ConceptNode(id, caption, definition, scopeId, state, supersededBy, createdAt, updatedAt, metadata)
    }
  }

  const SUPERSEDES_EDGE_NAMESPACE := Raw(0x6b9c_2d10_7a44_4f1e_9c3b_5e8d_21a7_0f64)

  function SupersedesEdgeId(successor: NodeId, predecessor: NodeId): EdgeId {
    NameBased(SUPERSEDES_EDGE_NAMESPACE, [successor, predecessor])
  }

  /** A pending `successor --supersedes--> predecessor` edge. */
  datatype Link = Link(successor: NodeId, predecessor: NodeId, scope: ScopeId) {
    function Id(): EdgeId { SupersedesEdgeId(successor, predecessor) }

    function Edge(now: Time): ConceptEdge {
      NewEdge(Id(), successor, predecessor, Supersedes, scope, now)
    }
  }

  predicate Points(item: MemoryProjection) {
    item.supersededBy.Some? && item.supersededBy.value != item.id
  }

  function LinkOf(item: MemoryProjection): Link
    requires Points(item)
  {
    Link(item.supersededBy.value, item.id, item.scopeId)
  }

  function Pending(items: seq<MemoryProjection>): seq<Link> {
    if items == [] then []
    else
      var front, last := Pending(items[..|items| - 1]), items[|items| - 1];
      if Points(last) then front + [LinkOf(last)] else front
  }

  function AddItems(items: seq<MemoryProjection>): State {
    if items == [] then EMPTY else AddNode(AddItems(items[..|items| - 1]), items[|items| - 1].IntoNode()).graph
  }

  /** The pending links whose endpoints are both present. */
  function Resolved(g: State, links: seq<Link>): seq<Link> {
    if links == [] then []
    else
      var front, last := Resolved(g, links[..|links| - 1]), links[|links| - 1];
      if last.successor in g.nodes && last.predecessor in g.nodes then front + [last] else front
  }

  /** The `k`-th surviving edge is stamped by the `k`-th clock reading. */
  function AddLinks(g: State, links: seq<Link>, clock: nat -> Time): State {
    if links == [] then g
    else AddEdge(AddLinks(g, links[..|links| - 1], clock), links[|links| - 1].Edge(clock(|links| - 1))).graph
  }

  function Kept(items: seq<MemoryProjection>): seq<Link> {
    Resolved(AddItems(items), Pending(items))
  }

  function Project(items: seq<MemoryProjection>, clock: nat -> Time): State {
    AddLinks(AddItems(items), Kept(items), clock)
  }

  // ---------------------------------------------------------------- nodes

  ghost predicate HasId(items: seq<MemoryProjection>, id: Uuid) {
    exists i :: 0 <= i < |items| && items[i].id == id
  }

  ghost predicate IsFirst(items: seq<MemoryProjection>, i: nat) {
    i < |items| && forall j :: 0 <= j < i ==> items[j].id != items[i].id
  }

  /** One node per id, made from its first occurrence. */
  ghost predicate NodesOf(items: seq<MemoryProjection>, nodes: map<NodeId, ConceptNode>) {
    && (forall id :: id in nodes <==> HasId(items, id))
    && forall i: nat :: IsFirst(items, i) ==> items[i].id in nodes && nodes[items[i].id] == items[i].IntoNode()
  }

  lemma HasIdNext(front: seq<MemoryProjection>, last: MemoryProjection, id: Uuid)
    ensures HasId(front + [last], id) <==> HasId(front, id) || id == last.id
  {
    var items := front + [last];
    assert items[|front|] == last;
    if HasId(front, id) {
      var i :| 0 <= i < |front| && front[i].id == id;
      assert items[i].id == id;
    }
  }

  lemma NodesNext(front: seq<MemoryProjection>, last: MemoryProjection, nodes: map<NodeId, ConceptNode>)
    requires NodesOf(front, nodes)
    ensures NodesOf(front + [last], if last.id in nodes then nodes else nodes[last.id := last.IntoNode()])
  {
    var items := front + [last];
    forall id ensures HasId(items, id) <==> HasId(front, id) || id == last.id { HasIdNext(front, last, id); }
    forall i: nat | IsFirst(items, i)
      ensures i < |front| ==> IsFirst(front, i)
      ensures i == |front| ==> !HasId(front, last.id)
    {
      assert forall j :: 0 <= j < |front| ==> items[j] == front[j];
    }
  }

  lemma {:induction false} ItemsGiveNodes(items: seq<MemoryProjection>)
    ensures var g := AddItems(items);
            Coherent(g) && g.edges == map[] && NodesOf(items, g.nodes)
  {
    if items == [] {
      EmptyCoherent();
    } else {
      hide Coherent, NodesOf, OrDefault;
      var front, last := items[..|items| - 1], items[|items| - 1];
      assert items == front + [last];
      ItemsGiveNodes(front);
      AddNodeCoherent(AddItems(front), last.IntoNode());
      NodesNext(front, last, AddItems(front).nodes);
    }
  }

  // ---------------------------------------------------------------- edges

  ghost predicate Present(g: State, links: seq<Link>) {
    forall i :: 0 <= i < |links| ==> links[i].successor in g.nodes && links[i].predecessor in g.nodes
  }

  lemma {:induction false} ResolvedExact(g: State, links: seq<Link>)
    ensures Present(g, Resolved(g, links))
    ensures forall l :: l in Resolved(g, links) <==> l in links && l.successor in g.nodes && l.predecessor in g.nodes
  {
    if links != [] {
      ResolvedExact(g, links[..|links| - 1]);
      assert links == links[..|links| - 1] + [links[|links| - 1]];
    }
  }

  lemma {:induction false} PendingExact(items: seq<MemoryProjection>)
    ensures forall l :: l in Pending(items) <==> exists x :: x in items && Points(x) && l == LinkOf(x)
  {
    if items != [] {
      var front, last := items[..|items| - 1], items[|items| - 1];
      assert items == front + [last];
      PendingExact(front);
      forall l | l in Pending(items) ensures exists x :: x in items && Points(x) && l == LinkOf(x) {
        if l in Pending(front) {
          var x :| x in front && Points(x) && l == LinkOf(x);
          assert x in items;
        } else {
          assert last in items;
        }
      }
    }
  }

  lemma IdInjective(a: Link, b: Link)
    ensures a.Id() == b.Id() <==> a.successor == b.successor && a.predecessor == b.predecessor
  {
    if a.Id() == b.Id() {
      assert [a.successor, a.predecessor][0] == [b.successor, b.predecessor][0];
      assert [a.successor, a.predecessor][1] == [b.successor, b.predecessor][1];
    }
  }

  /** No two links share an edge id. */
  ghost predicate DistinctLinks(links: seq<Link>) {
    forall i, j :: 0 <= i < j < |links| ==> links[i].Id() != links[j].Id()
  }

  ghost predicate Produces(links: seq<Link>, e: EdgeId) {
    exists i :: 0 <= i < |links| && links[i].Id() == e
  }

  ghost predicate IsLast(links: seq<Link>, i: nat) {
    i < |links| && forall j :: i < j < |links| ==> links[j].Id() != links[i].Id()
  }

  ghost predicate Stamped(links: seq<Link>, clock: nat -> Time, edges: map<EdgeId, ConceptEdge>, i: nat)
    requires i < |links|
  {
    links[i].Id() in edges && edges[links[i].Id()] == links[i].Edge(clock(i))
  }

  /** One edge per id, made from the last link with that id. */
  ghost predicate EdgesOf(links: seq<Link>, clock: nat -> Time, edges: map<EdgeId, ConceptEdge>) {
    && (forall e :: e in edges <==> Produces(links, e))
    && forall i: nat :: IsLast(links, i) ==> Stamped(links, clock, edges, i)
  }

  lemma ProducesNext(front: seq<Link>, last: Link, e: EdgeId)
    ensures Produces(front + [last], e) <==> Produces(front, e) || e == last.Id()
  {
    var links := front + [last];
    assert links[|front|] == last;
    if Produces(front, e) {
      var i :| 0 <= i < |front| && front[i].Id() == e;
      assert links[i].Id() == e;
    }
  }

  lemma LastNext(front: seq<Link>, last: Link, i: nat)
    requires i < |front| && IsLast(front + [last], i)
    ensures IsLast(front, i) && last.Id() != front[i].Id()
  {
    hide SupersedesEdgeId;
    var links := front + [last];
    assert forall j :: 0 <= j < |front| ==> links[j] == front[j];
    assert links[|front|] == last;
  }

  lemma StampedNext(front: seq<Link>, last: Link, clock: nat -> Time, edges: map<EdgeId, ConceptEdge>, i: nat)
    requires i <= |front| && (i < |front| ==> Stamped(front, clock, edges, i) && last.Id() != front[i].Id())
    ensures Stamped(front + [last], clock, edges[last.Id() := last.Edge(clock(|front|))], i)
  {
    hide SupersedesEdgeId;
    assert (front + [last])[i] == if i < |front| then front[i] else last;
  }

  lemma EdgesNext(front: seq<Link>, last: Link, clock: nat -> Time, edges: map<EdgeId, ConceptEdge>)
    requires EdgesOf(front, clock, edges)
    ensures EdgesOf(front + [last], clock, edges[last.Id() := last.Edge(clock(|front|))])
  {
    hide SupersedesEdgeId, Produces, Stamped;
    var links, edges' := front + [last], edges[last.Id() := last.Edge(clock(|front|))];
    forall e ensures e in edges' <==> Produces(links, e) { ProducesNext(front, last, e); }
    forall i: nat | IsLast(links, i) ensures Stamped(links, clock, edges', i) {
      if i < |front| { LastNext(front, last, i); }
      hide IsLast;
      StampedNext(front, last, clock, edges, i);
    }
  }

  lemma {:induction false} LinksGiveEdges(g: State, links: seq<Link>, clock: nat -> Time)
    requires g.edges == map[] && Present(g, links)
    ensures AddLinks(g, links, clock).nodes == g.nodes && EdgesOf(links, clock, AddLinks(g, links, clock).edges)
  {
    if links != [] {
      hide EdgesOf, Push, SupersedesEdgeId;
      var front, last := links[..|links| - 1], links[|links| - 1];
      assert links == front + [last];
      LinksGiveEdges(g, front, clock);
      EdgesNext(front, last, clock, AddLinks(g, front, clock).edges);
    }
  }

  function IdsFrom(links: seq<Link>, n: NodeId): seq<EdgeId> {
    if links == [] then []
    else
      var front, last := IdsFrom(links[..|links| - 1], n), links[|links| - 1];
      if last.successor == n then front + [last.Id()] else front
  }

  lemma {:induction false} OutgoingGrows(g: State, links: seq<Link>, clock: nat -> Time, n: NodeId)
    requires Present(g, links) && List(g.outgoing, n) == []
    ensures AddLinks(g, links, clock).nodes == g.nodes
    ensures List(AddLinks(g, links, clock).outgoing, n) == IdsFrom(links, n)
  {
    if links != [] {
      var front := links[..|links| - 1];
      assert Present(g, front);
      OutgoingGrows(g, front, clock, n);
    }
  }

  lemma {:induction false} RepeatedIds(links: seq<Link>, i: nat, j: nat) returns (a: nat, b: nat)
    requires i < j < |links| && links[i].Id() == links[j].Id()
    ensures var ids := IdsFrom(links, links[i].successor);
            a < b < |ids| && ids[a] == ids[b]
    decreases |links|
  {
    var front := links[..|links| - 1];
    var n := links[i].successor;
    IdInjective(links[i], links[j]);
    if j < |front| {
      a, b := RepeatedIds(front, i, j);
    } else {
      a := IdListed(front, i);
      b := |IdsFrom(front, n)|;
    }
  }

  lemma {:induction false} IdListed(links: seq<Link>, i: nat) returns (a: nat)
    requires i < |links|
    ensures a < |IdsFrom(links, links[i].successor)| && IdsFrom(links, links[i].successor)[a] == links[i].Id()
    decreases |links|
  {
    if i < |links| - 1 {
      a := IdListed(links[..|links| - 1], i);
    } else {
      a := |IdsFrom(links[..i], links[i].successor)|;
    }
  }

  lemma {:induction false} DistinctCoherent(g: State, links: seq<Link>, clock: nat -> Time)
    requires Coherent(g) && g.edges == map[] && Present(g, links) && DistinctLinks(links)
    ensures Coherent(AddLinks(g, links, clock))
  {
    hide Coherent;
    if links != [] {
      var front, last := links[..|links| - 1], links[|links| - 1];
      DistinctCoherent(g, front, clock);
      LinksGiveEdges(g, front, clock);
      assert !Produces(front, last.Id()) by { assert forall i :: 0 <= i < |front| ==> front[i] == links[i]; }
      AddEdgeCoherentIffFresh(AddLinks(g, front, clock), last.Edge(clock(|front|)));
    }
  }

  lemma RepeatsIncoherent(g: State, links: seq<Link>, clock: nat -> Time, i: nat, j: nat)
    requires Coherent(g) && g.edges == map[] && Present(g, links)
    requires i < j < |links| && links[i].Id() == links[j].Id()
    ensures !Coherent(AddLinks(g, links, clock))
  {
    var n := links[i].successor;
    assert ListedAt(g, n);
    HasMember(g.outgoing[n]);
    OutgoingGrows(g, links, clock, n);
    var a, b := RepeatedIds(links, i, j);
    var h := AddLinks(g, links, clock);
    assert !ListedAt(h, n);
  }

  /** Two inputs repeat one pointer: the same id, pointing at the same other node of `g`. */
  ghost predicate Clash(g: State, items: seq<MemoryProjection>, i: int, j: int) {
    && 0 <= i < j < |items| && Points(items[i])
    && items[i].id == items[j].id && items[i].supersededBy == items[j].supersededBy
    && items[i].supersededBy.value in g.nodes && items[i].id in g.nodes
  }

  lemma DistinctPush(links: seq<Link>, l: Link)
    ensures DistinctLinks(links + [l]) <==> DistinctLinks(links) && forall k :: k in links ==> k.Id() != l.Id()
  {
    hide SupersedesEdgeId;
    var all := links + [l];
    assert forall i :: 0 <= i < |links| ==> all[i] == links[i];
    assert all[|links|] == l;
    forall k | k in links && k.Id() == l.Id() ensures !DistinctLinks(all) {
      var i :| 0 <= i < |links| && links[i] == k;
      assert all[i].Id() == all[|links|].Id();
    }
    if !DistinctLinks(links) {
      var i, j :| 0 <= i < j < |links| && links[i].Id() == links[j].Id();
      assert all[i].Id() == all[j].Id();
    }
  }

  /** `last` repeats the resolved pointer of an earlier input. */
  ghost predicate Repeats(g: State, front: seq<MemoryProjection>, last: MemoryProjection) {
    exists x :: x in front && Points(x) && x.id == last.id && x.supersededBy == last.supersededBy
                && x.supersededBy.value in g.nodes && x.id in g.nodes
  }

  lemma ClashNext(g: State, front: seq<MemoryProjection>, last: MemoryProjection)
    ensures (exists i, j :: Clash(g, front + [last], i, j)) <==>
            (exists i, j :: Clash(g, front, i, j)) || Repeats(g, front, last)
  {
    var items := front + [last];
    assert forall i :: 0 <= i < |front| ==> items[i] == front[i];
    assert items[|front|] == last;
    if i, j :| Clash(g, items, i, j) {
      if j < |front| { assert Clash(g, front, i, j); } else { assert front[i] in front; }
    }
    if i, j :| Clash(g, front, i, j) { assert Clash(g, items, i, j); }
    if x :| x in front && Points(x) && x.id == last.id && x.supersededBy == last.supersededBy
            && x.supersededBy.value in g.nodes && x.id in g.nodes {
      var i :| 0 <= i < |front| && front[i] == x;
      assert Clash(g, items, i, |front|);
    }
  }

  lemma {:induction false} DistinctIffNoClash(g: State, items: seq<MemoryProjection>)
    ensures DistinctLinks(Resolved(g, Pending(items))) <==> !exists i, j :: Clash(g, items, i, j)
  {
    if items != [] {
      hide DistinctLinks, Clash, Repeats;
      var front, last := items[..|items| - 1], items[|items| - 1];
      assert items == front + [last];
      DistinctIffNoClash(g, front);
      hide Resolved, Pending;
      ClashNext(g, front, last);
      DistinctLinksNext(g, front, last);
    }
  }

  lemma DistinctLinksNext(g: State, front: seq<MemoryProjection>, last: MemoryProjection)
    ensures DistinctLinks(Resolved(g, Pending(front + [last]))) <==>
            DistinctLinks(Resolved(g, Pending(front))) && !Repeats(g, front, last)
  {
    hide DistinctLinks, SupersedesEdgeId;
    var links := Resolved(g, Pending(front));
    assert (front + [last])[..|front|] == front;
    RepeatsIff(g, front, last);
    if Points(last) {
      var l := LinkOf(last);
      assert (Pending(front) + [l])[..|Pending(front)|] == Pending(front);
      DistinctPush(links, l);
    }
  }

  /** A repeated pointer is a repeated edge id. */
  lemma RepeatsIff(g: State, front: seq<MemoryProjection>, last: MemoryProjection)
    ensures Repeats(g, front, last) <==>
            && Points(last) && last.supersededBy.value in g.nodes && last.id in g.nodes
            && exists k :: k in Resolved(g, Pending(front)) && k.Id() == LinkOf(last).Id()
  {
    hide Resolved, Pending, SupersedesEdgeId;
    PendingExact(front);
    ResolvedExact(g, Pending(front));
    if x :| x in front && Points(x) && x.id == last.id && x.supersededBy == last.supersededBy
            && x.supersededBy.value in g.nodes && x.id in g.nodes {
      assert LinkOf(x) in Resolved(g, Pending(front));
      IdInjective(LinkOf(x), LinkOf(last));
    }
    if Points(last) {
      if k :| k in Resolved(g, Pending(front)) && k.Id() == LinkOf(last).Id() {
        IdInjective(k, LinkOf(last));
        var x :| x in front && Points(x) && k == LinkOf(x);
        assert x.id == last.id && x.supersededBy == last.supersededBy;
      }
    }
  }

  /** The projected graph is coherent exactly when no two inputs repeat one resolved pointer. */
  lemma ProjectCoherentIff(items: seq<MemoryProjection>, clock: nat -> Time)
    ensures Coherent(Project(items, clock)) <==> !exists i, j :: Clash(AddItems(items), items, i, j)
  {
    hide Coherent, Clash;
    var g, links := AddItems(items), Kept(items);
    ItemsGiveNodes(items);
    ResolvedExact(g, Pending(items));
    DistinctIffNoClash(g, items);
    if DistinctLinks(links) {
      DistinctCoherent(g, links, clock);
    } else {
      var i, j :| 0 <= i < j < |links| && links[i].Id() == links[j].Id();
      RepeatsIncoherent(g, links, clock, i, j);
    }
  }

  // ---------------------------------------------------------------- distinct inputs

  ghost predicate DistinctIds(items: seq<MemoryProjection>) {
    forall i, j :: 0 <= i < j < |items| ==> items[i].id != items[j].id
  }

  /** `x` has a pointer to another input that is present. */
  ghost predicate Linked(items: seq<MemoryProjection>, x: MemoryProjection) {
    x in items && Points(x) && HasId(items, x.supersededBy.value)
  }

  lemma KeptExact(items: seq<MemoryProjection>)
    ensures forall l :: l in Kept(items) <==> exists x :: Linked(items, x) && l == LinkOf(x)
  {
    hide Coherent;
    ItemsGiveNodes(items);
    ResolvedExact(AddItems(items), Pending(items));
    PendingExact(items);
    forall l | l in Kept(items) ensures exists x :: Linked(items, x) && l == LinkOf(x) {
      var x :| x in items && Points(x) && l == LinkOf(x);
      assert Linked(items, x);
    }
    forall x | Linked(items, x) ensures LinkOf(x) in Kept(items) {
      var i :| 0 <= i < |items| && items[i] == x;
      assert HasId(items, x.id);
    }
  }

  lemma {:induction false} PendingDistinct(items: seq<MemoryProjection>)
    requires DistinctIds(items)
    ensures forall i, j :: 0 <= i < j < |Pending(items)| ==>
            Pending(items)[i].predecessor != Pending(items)[j].predecessor
  {
    if items != [] {
      var front, last := items[..|items| - 1], items[|items| - 1];
      PendingDistinct(front);
      PendingExact(front);
      forall l | l in Pending(front) ensures l.predecessor != last.id {
        var x :| x in front && Points(x) && l == LinkOf(x);
        var i :| 0 <= i < |front| && front[i] == x;
        assert items[i].id != items[|front|].id;
      }
      assert forall i :: 0 <= i < |Pending(front)| ==> Pending(front)[i] in Pending(front);
    }
  }

  lemma {:induction false} ResolvedDistinct(g: State, links: seq<Link>)
    requires forall i, j :: 0 <= i < j < |links| ==> links[i].predecessor != links[j].predecessor
    ensures forall i, j :: 0 <= i < j < |Resolved(g, links)| ==>
            Resolved(g, links)[i].predecessor != Resolved(g, links)[j].predecessor
  {
    if links != [] {
      var front, last := links[..|links| - 1], links[|links| - 1];
      ResolvedDistinct(g, front);
      ResolvedExact(g, front);
      forall l | l in front ensures l.predecessor != last.predecessor {
        var i :| 0 <= i < |front| && front[i] == l;
        assert links[i].predecessor != links[|front|].predecessor;
      }
      assert forall i :: 0 <= i < |Resolved(g, front)| ==> Resolved(g, front)[i] in Resolved(g, front);
    }
  }

  lemma KeptDistinct(items: seq<MemoryProjection>)
    requires DistinctIds(items)
    ensures DistinctLinks(Kept(items))
  {
    PendingDistinct(items);
    ResolvedDistinct(AddItems(items), Pending(items));
    forall i, j | 0 <= i < j < |Kept(items)| ensures Kept(items)[i].Id() != Kept(items)[j].Id() {
      IdInjective(Kept(items)[i], Kept(items)[j]);
    }
  }

  /** An edge up to its creation time. */
  function Timeless(e: ConceptEdge): ConceptEdge {
    e.(createdAt := 0)
  }

  /** One node per input. */
  ghost predicate NodesExact(items: seq<MemoryProjection>, nodes: map<NodeId, ConceptNode>) {
    && (forall id :: id in nodes <==> HasId(items, id))
    && forall i :: 0 <= i < |items| ==> items[i].id in nodes && nodes[items[i].id] == items[i].IntoNode()
  }

  /** One supersedes edge per pointer that resolves to another input. */
  ghost predicate EdgesExact(items: seq<MemoryProjection>, edges: map<EdgeId, ConceptEdge>) {
    && (forall e :: e in edges ==> exists x :: Linked(items, x) && e == LinkOf(x).Id())
    && forall x :: Linked(items, x) ==> LinkOf(x).Id() in edges && Timeless(edges[LinkOf(x).Id()]) == LinkOf(x).Edge(0)
  }

  lemma LinksExact(items: seq<MemoryProjection>, clock: nat -> Time, edges: map<EdgeId, ConceptEdge>)
    requires EdgesOf(Kept(items), clock, edges) && DistinctLinks(Kept(items))
    ensures EdgesExact(items, edges)
  {
    KeptExact(items);
    hide Kept, SupersedesEdgeId;
    var links := Kept(items);
    forall e | e in edges ensures exists x :: Linked(items, x) && e == LinkOf(x).Id() {
      var i :| 0 <= i < |links| && links[i].Id() == e;
      assert links[i] in links;
    }
    forall x | Linked(items, x)
      ensures LinkOf(x).Id() in edges && Timeless(edges[LinkOf(x).Id()]) == LinkOf(x).Edge(0)
    {
      assert LinkOf(x) in links;
      var i: nat :| i < |links| && links[i] == LinkOf(x);
      assert IsLast(links, i);
    }
  }

  /** For inputs with distinct ids: one node per input, one supersedes edge per resolved pointer, and a coherent
      graph. */
  lemma ProjectExact(items: seq<MemoryProjection>, clock: nat -> Time)
    requires DistinctIds(items)
    ensures Coherent(Project(items, clock))
    ensures NodesExact(items, Project(items, clock).nodes)
    ensures EdgesExact(items, Project(items, clock).edges)
  {
    hide Coherent, AddItems, AddLinks, Resolved, Pending, EdgesOf, EdgesExact, DistinctLinks, Present;
    KeptDistinct(items);
    ItemsGiveNodes(items);
    ResolvedExact(AddItems(items), Pending(items));
    DistinctCoherent(AddItems(items), Kept(items), clock);
    LinksGiveEdges(AddItems(items), Kept(items), clock);
    LinksExact(items, clock, Project(items, clock).edges);
    forall i: nat | i < |items| ensures IsFirst(items, i) {}
  }

  ghost predicate SameItems(a: seq<MemoryProjection>, b: seq<MemoryProjection>) {
    forall x :: x in a <==> x in b
  }

  lemma SameIds(a: seq<MemoryProjection>, b: seq<MemoryProjection>, id: Uuid)
    requires SameItems(a, b) && HasId(a, id)
    ensures HasId(b, id)
  {
    var i :| 0 <= i < |a| && a[i].id == id;
    assert a[i] in b;
    var j :| 0 <= j < |b| && b[j] == a[i];
  }

  lemma SameNodesFromItems(a: seq<MemoryProjection>, b: seq<MemoryProjection>, m: map<NodeId, ConceptNode>,
                           n: map<NodeId, ConceptNode>, id: NodeId)
    requires SameItems(a, b) && NodesExact(a, m) && NodesExact(b, n) && id in m
    ensures id in n && m[id] == n[id]
  {
    var i :| 0 <= i < |a| && a[i].id == id;
    assert a[i] in b;
    var j :| 0 <= j < |b| && b[j] == a[i];
  }

  lemma SameEdgesFromItems(a: seq<MemoryProjection>, b: seq<MemoryProjection>, m: map<EdgeId, ConceptEdge>,
                           n: map<EdgeId, ConceptEdge>, e: EdgeId)
    requires SameItems(a, b) && EdgesExact(a, m) && EdgesExact(b, n) && e in m
    ensures e in n && Timeless(m[e]) == Timeless(n[e])
  {
    hide SupersedesEdgeId;
    var x :| Linked(a, x) && e == LinkOf(x).Id();
    SameIds(a, b, x.supersededBy.value);
    assert Linked(b, x);
  }

  /** Input order and clock do not matter: same nodes, same edge ids, and edges that differ at most in their creation
      time. */
  lemma ProjectOrderFree(a: seq<MemoryProjection>, b: seq<MemoryProjection>, clockA: nat -> Time, clockB: nat -> Time)
    requires DistinctIds(a) && DistinctIds(b) && SameItems(a, b)
    ensures Project(a, clockA).nodes == Project(b, clockB).nodes
    ensures Project(a, clockA).edges.Keys == Project(b, clockB).edges.Keys
    ensures forall e :: e in Project(a, clockA).edges ==>
              Timeless(Project(a, clockA).edges[e]) == Timeless(Project(b, clockB).edges[e])
  {
    hide Coherent, Project, NodesExact, EdgesExact;
    ProjectExact(a, clockA);
    ProjectExact(b, clockB);
    assert SameItems(b, a);
    hide SameItems, DistinctIds;
    var g, h := Project(a, clockA), Project(b, clockB);
    forall id | id in g.nodes ensures id in h.nodes && g.nodes[id] == h.nodes[id] {
      SameNodesFromItems(a, b, g.nodes, h.nodes, id);
    }
    forall id | id in h.nodes ensures id in g.nodes { SameNodesFromItems(b, a, h.nodes, g.nodes, id); }
    forall e | e in g.edges ensures e in h.edges && Timeless(g.edges[e]) == Timeless(h.edges[e]) {
      SameEdgesFromItems(a, b, g.edges, h.edges, e);
    }
    forall e | e in h.edges ensures e in g.edges { SameEdgesFromItems(b, a, h.edges, g.edges, e); }
  }

  /** The clock reaches nothing but the edges' creation times. */
  lemma {:induction false} ClockOnlyStamps(g: State, links: seq<Link>, clockA: nat -> Time, clockB: nat -> Time)
    ensures var a, b := AddLinks(g, links, clockA), AddLinks(g, links, clockB);
            a.nodes == b.nodes && a.outgoing == b.outgoing && a.incoming == b.incoming
  {
    hide SupersedesEdgeId, Push;
    if links != [] { ClockOnlyStamps(g, links[..|links| - 1], clockA, clockB); }
  }

  lemma {:induction false} LastLinkWith(links: seq<Link>, i: nat) returns (k: nat)
    requires i < |links|
    ensures IsLast(links, k) && links[k].Id() == links[i].Id()
    decreases |links| - i
  {
    hide SupersedesEdgeId;
    k := i;
    if !IsLast(links, i) {
      var j :| i < j < |links| && links[j].Id() == links[i].Id();
      k := LastLinkWith(links, j);
    }
  }

  lemma SameStampsIff(links: seq<Link>, clockA: nat -> Time, clockB: nat -> Time, a: map<EdgeId, ConceptEdge>,
                      b: map<EdgeId, ConceptEdge>)
    requires EdgesOf(links, clockA, a) && EdgesOf(links, clockB, b)
    ensures a == b <==> forall i: nat :: IsLast(links, i) ==> clockA(i) == clockB(i)
  {
    hide SupersedesEdgeId;
    if a == b {
      forall i: nat | IsLast(links, i) ensures clockA(i) == clockB(i) {
        hide IsLast;
        assert Stamped(links, clockA, a, i) && Stamped(links, clockB, b, i);
        assert links[i].Edge(clockA(i)) == links[i].Edge(clockB(i));
      }
    }
    if forall i: nat :: IsLast(links, i) ==> clockA(i) == clockB(i) {
      forall e | e in a ensures a[e] == b[e] {
        assert Produces(links, e);
        var i: nat :| i < |links| && links[i].Id() == e;
        var k := LastLinkWith(links, i);
        assert Stamped(links, clockA, a, k) && Stamped(links, clockB, b, k);
      }
      assert a == b;
    }
  }

  /** For any input, two projections are identical, creation times included, exactly when the clocks agree wherever
      the last link with its edge id is stamped. */
  lemma ProjectIdenticalIff(items: seq<MemoryProjection>, clockA: nat -> Time, clockB: nat -> Time)
    ensures Project(items, clockA) == Project(items, clockB) <==>
            forall i: nat :: IsLast(Kept(items), i) ==> clockA(i) == clockB(i)
  {
    hide Coherent, AddItems, AddLinks, Resolved, Pending, EdgesOf, IsLast;
    var g, links := AddItems(items), Kept(items);
    ItemsGiveNodes(items);
    ResolvedExact(g, Pending(items));
    LinksGiveEdges(g, links, clockA);
    LinksGiveEdges(g, links, clockB);
    ClockOnlyStamps(g, links, clockA, clockB);
    SameStampsIff(links, clockA, clockB, AddLinks(g, links, clockA).edges, AddLinks(g, links, clockB).edges);
  }

  // ---------------------------------------------------------------- repeated ids

  /** The first occurrences alone. */
  ghost function Firsts(items: seq<MemoryProjection>): seq<MemoryProjection> {
    if items == [] then []
    else
      var front, last := items[..|items| - 1], items[|items| - 1];
      if HasId(front, last.id) then Firsts(front) else Firsts(front) + [last]
  }

  ghost predicate FirstIs(items: seq<MemoryProjection>, i: nat, x: MemoryProjection) {
    IsFirst(items, i) && items[i] == x
  }

  lemma FirstsNext(front: seq<MemoryProjection>, last: MemoryProjection, x: MemoryProjection)
    ensures (exists i: nat :: FirstIs(front + [last], i, x)) <==>
            (exists i: nat :: FirstIs(front, i, x)) || (x == last && !HasId(front, last.id))
  {
    var items := front + [last];
    assert forall j :: 0 <= j < |front| ==> items[j] == front[j];
    assert items[|front|] == last;
    if i: nat :| FirstIs(items, i, x) {
      if i < |front| {
        assert FirstIs(front, i, x);
      } else {
        assert forall j :: 0 <= j < |front| ==> items[j].id != last.id;
      }
    }
    if i: nat :| FirstIs(front, i, x) { assert FirstIs(items, i, x); }
    if x == last && !HasId(front, last.id) { assert FirstIs(items, |front|, x); }
  }

  lemma {:induction false} FirstsExact(items: seq<MemoryProjection>)
    ensures forall x :: x in Firsts(items) <==> exists i: nat :: FirstIs(items, i, x)
    ensures forall id :: HasId(Firsts(items), id) <==> HasId(items, id)
    ensures DistinctIds(Firsts(items))
  {
    if items != [] {
      var front, last := items[..|items| - 1], items[|items| - 1];
      assert items == front + [last];
      FirstsExact(front);
      hide FirstIs;
      forall x ensures x in Firsts(items) <==> exists i: nat :: FirstIs(items, i, x) { FirstsNext(front, last, x); }
      forall id ensures HasId(Firsts(items), id) <==> HasId(items, id) {
        HasIdNext(front, last, id);
        HasIdNext(Firsts(front), last, id);
      }
      if !HasId(front, last.id) { DistinctNext(Firsts(front), last); }
    }
  }

  lemma DistinctNext(front: seq<MemoryProjection>, last: MemoryProjection)
    requires DistinctIds(front) && !HasId(front, last.id)
    ensures DistinctIds(front + [last])
  {}

  /** The `j`-th input has a pointer to another node of `g`. */
  ghost predicate LinkedAt(g: State, items: seq<MemoryProjection>, j: int) {
    0 <= j < |items| && Points(items[j]) && items[j].supersededBy.value in g.nodes && items[j].id in g.nodes
  }

  /** No later input repeats the `j`-th one's pointer. */
  ghost predicate LastFor(g: State, items: seq<MemoryProjection>, j: int) {
    LinkedAt(g, items, j) && forall k :: j < k && LinkedAt(g, items, k) ==>
        LinkOf(items[k]).Id() != LinkOf(items[j]).Id()
  }

  ghost predicate LinkedTo(g: State, items: seq<MemoryProjection>, e: EdgeId) {
    exists j :: LinkedAt(g, items, j) && LinkOf(items[j]).Id() == e
  }

  /** One edge per resolved pointer, and of several inputs with that pointer the last one writes it. */
  ghost predicate Written(g: State, items: seq<MemoryProjection>, edges: map<EdgeId, ConceptEdge>) {
    && (forall e :: e in edges <==> LinkedTo(g, items, e))
    && forall j :: LastFor(g, items, j) ==>
         LinkOf(items[j]).Id() in edges && Timeless(edges[LinkOf(items[j]).Id()]) == LinkOf(items[j]).Edge(0)
  }

  lemma LinkedNext(g: State, front: seq<MemoryProjection>, last: MemoryProjection)
    ensures forall j :: 0 <= j < |front| ==> (LinkedAt(g, front + [last], j) <==> LinkedAt(g, front, j))
    ensures LinkedAt(g, front + [last], |front|) <==>
            Points(last) && last.supersededBy.value in g.nodes && last.id in g.nodes
    ensures forall e :: LinkedTo(g, front + [last], e) <==>
              LinkedTo(g, front, e) || (LinkedAt(g, front + [last], |front|) && LinkOf(last).Id() == e)
  {
    hide SupersedesEdgeId;
    var items := front + [last];
    assert forall j :: 0 <= j < |front| ==> items[j] == front[j];
    assert items[|front|] == last;
    forall e | LinkedTo(g, front, e) ensures LinkedTo(g, items, e) {
      var j :| LinkedAt(g, front, j) && LinkOf(front[j]).Id() == e;
      assert LinkedAt(g, items, j) && LinkOf(items[j]).Id() == e;
    }
    forall e | LinkedTo(g, items, e)
      ensures LinkedTo(g, front, e) || (LinkedAt(g, items, |front|) && LinkOf(last).Id() == e)
    {
      var j :| LinkedAt(g, items, j) && LinkOf(items[j]).Id() == e;
      if j < |front| { assert LinkedAt(g, front, j) && LinkOf(front[j]).Id() == e; }
    }
  }

  lemma WrittenNext(g: State, front: seq<MemoryProjection>, last: MemoryProjection, edges: map<EdgeId, ConceptEdge>,
                    now: Time)
    requires Written(g, front, edges)
    ensures var items := front + [last];
            Written(g, items,
                if LinkedAt(g, items, |front|) then edges[LinkOf(last).Id() := LinkOf(last).Edge(now)] else edges)
  {
    var items := front + [last];
    LinkedNext(g, front, last);
    hide LinkedTo, SupersedesEdgeId;
    assert items[|front|] == last;
    forall j | LastFor(g, items, j) && j < |front|
      ensures LastFor(g, front, j) && (LinkedAt(g, items, |front|) ==> LinkOf(items[j]).Id() != LinkOf(last).Id())
    {
      assert forall k :: 0 <= k < |front| ==> items[k] == front[k];
      assert forall k :: LinkedAt(g, front, k) ==> LinkedAt(g, items, k);
    }
  }

  lemma {:induction false} LastWins(g: State, items: seq<MemoryProjection>, clock: nat -> Time)
    requires g.edges == map[]
    ensures var r := AddLinks(g, Resolved(g, Pending(items)), clock);
            r.nodes == g.nodes && Written(g, items, r.edges)
  {
    if items != [] {
      var front, last := items[..|items| - 1], items[|items| - 1];
      assert items == front + [last];
      LastWins(g, front, clock);
      hide Written, Push, SupersedesEdgeId;
      var links := Resolved(g, Pending(front));
      WrittenNext(g, front, last, AddLinks(g, links, clock).edges, clock(|links|));
      LinkedNext(g, front, last);
      hide LinkedAt, LinkedTo;
      if Points(last) {
        var l := LinkOf(last);
        assert (Pending(front) + [l])[..|Pending(front)|] == Pending(front);
        assert (links + [l])[..|links|] == links;
      }
    }
  }

  /** No later input with the `j`-th one's id has a pointer that resolves. */
  ghost predicate LastLinked(g: State, items: seq<MemoryProjection>, j: int) {
    LinkedAt(g, items, j) && forall k :: j < k && LinkedAt(g, items, k) ==> items[k].id != items[j].id
  }

  /** Every pointer that resolves is the pointer of its id's first occurrence, and the last of them carries its
      scope. */
  ghost predicate Redundant(g: State, items: seq<MemoryProjection>) {
    forall i: nat, j :: IsFirst(items, i) && LinkedAt(g, items, j) && items[i].id == items[j].id ==>
      && items[j].supersededBy == items[i].supersededBy
      && (LastLinked(g, items, j) ==> items[j].scopeId == items[i].scopeId)
  }

  ghost predicate SameEdges(a: map<EdgeId, ConceptEdge>, b: map<EdgeId, ConceptEdge>) {
    a.Keys == b.Keys && forall e :: e in a ==> Timeless(a[e]) == Timeless(b[e])
  }

  lemma {:induction false} LastForExists(g: State, items: seq<MemoryProjection>, j: int) returns (k: int)
    requires LinkedAt(g, items, j)
    ensures LastFor(g, items, k) && LinkOf(items[k]).Id() == LinkOf(items[j]).Id()
    decreases |items| - j
  {
    hide SupersedesEdgeId;
    k := j;
    if !LastFor(g, items, j) {
      var l :| j < l && LinkedAt(g, items, l) && LinkOf(items[l]).Id() == LinkOf(items[j]).Id();
      k := LastForExists(g, items, l);
    }
  }

  lemma {:induction false} FirstWith(items: seq<MemoryProjection>, j: nat) returns (i: nat)
    requires j < |items|
    ensures IsFirst(items, i) && items[i].id == items[j].id
    decreases j
  {
    i := j;
    if !IsFirst(items, j) {
      var l: nat :| l < j && items[l].id == items[j].id;
      i := FirstWith(items, l);
    }
  }

  /** The edges of the first occurrences: one per first occurrence whose pointer resolves. */
  ghost predicate FirstEdges(g: State, items: seq<MemoryProjection>, edges: map<EdgeId, ConceptEdge>) {
    && (forall e :: e in edges ==>
        exists i: nat :: IsFirst(items, i) && LinkedAt(g, items, i) && LinkOf(items[i]).Id() == e)
    && forall i: nat :: IsFirst(items, i) && LinkedAt(g, items, i) ==>
         LinkOf(items[i]).Id() in edges && Timeless(edges[LinkOf(items[i]).Id()]) == LinkOf(items[i]).Edge(0)
  }

  lemma FirstLinked(g: State, items: seq<MemoryProjection>, i: nat)
    requires IsFirst(items, i) && forall id :: id in g.nodes <==> HasId(items, id)
    ensures LinkedAt(g, items, i) <==> Linked(Firsts(items), items[i])
  {
    FirstsExact(items);
    hide Firsts;
    assert FirstIs(items, i, items[i]);
    assert HasId(items, items[i].id);
  }

  lemma FirstsGiveEdges(g: State, items: seq<MemoryProjection>, edges: map<EdgeId, ConceptEdge>)
    requires EdgesExact(Firsts(items), edges) && forall id :: id in g.nodes <==> HasId(items, id)
    ensures FirstEdges(g, items, edges)
  {
    hide SupersedesEdgeId, Firsts, HasId;
    var firsts := Firsts(items);
    forall i: nat | IsFirst(items, i) ensures LinkedAt(g, items, i) <==> Linked(firsts, items[i]) {
      FirstLinked(g, items, i);
    }
    forall e | e in edges
      ensures exists i: nat :: IsFirst(items, i) && LinkedAt(g, items, i) && LinkOf(items[i]).Id() == e
    {
      var x :| Linked(firsts, x) && e == LinkOf(x).Id();
      assert x in firsts;
      FirstsExact(items);
      var i: nat :| FirstIs(items, i, x);
    }
  }

  lemma SamePointers(g: State, items: seq<MemoryProjection>, all: map<EdgeId, ConceptEdge>,
                     firsts: map<EdgeId, ConceptEdge>)
    requires Written(g, items, all) && FirstEdges(g, items, firsts) && SameEdges(all, firsts)
    ensures forall i: nat, j :: IsFirst(items, i) && LinkedAt(g, items, j) && items[i].id == items[j].id ==>
              LinkedAt(g, items, i) && items[j].supersededBy == items[i].supersededBy
  {
    hide SupersedesEdgeId, LastFor;
    forall i: nat, j | IsFirst(items, i) && LinkedAt(g, items, j) && items[i].id == items[j].id
      ensures LinkedAt(g, items, i) && items[j].supersededBy == items[i].supersededBy
    {
      var l := LinkOf(items[j]);
      assert LinkedTo(g, items, l.Id());
      assert l.Id() in all && l.Id() in firsts;
      var k: nat :| IsFirst(items, k) && LinkedAt(g, items, k) && LinkOf(items[k]).Id() == l.Id();
      hide Written, FirstEdges, SameEdges;
      IdInjective(LinkOf(items[k]), l);
      OneFirst(items, k, i);
    }
  }

  lemma SameScopes(g: State, items: seq<MemoryProjection>, all: map<EdgeId, ConceptEdge>,
                   firsts: map<EdgeId, ConceptEdge>)
    requires Written(g, items, all) && FirstEdges(g, items, firsts) && SameEdges(all, firsts)
    ensures forall i: nat, j ::
              IsFirst(items, i) && LinkedAt(g, items, i) && LastLinked(g, items, j)
              && items[i].id == items[j].id && items[i].supersededBy == items[j].supersededBy ==>
                items[j].scopeId == items[i].scopeId
  {
    hide SupersedesEdgeId, LinkedTo;
    forall i: nat, j | IsFirst(items, i) && LinkedAt(g, items, i) && LastLinked(g, items, j)
                       && items[i].id == items[j].id && items[i].supersededBy == items[j].supersededBy
      ensures items[j].scopeId == items[i].scopeId
    {
      LastLinkedWrites(g, items, j);
      var e := LinkOf(items[j]).Id();
      assert e == LinkOf(items[i]).Id();
      assert Timeless(all[e]) == LinkOf(items[j]).Edge(0) && Timeless(firsts[e]) == LinkOf(items[i]).Edge(0);
    }
  }

  lemma SameImpliesRedundant(g: State, items: seq<MemoryProjection>, all: map<EdgeId, ConceptEdge>,
                             firsts: map<EdgeId, ConceptEdge>)
    requires Written(g, items, all) && FirstEdges(g, items, firsts) && SameEdges(all, firsts)
    ensures Redundant(g, items)
  {
    SamePointers(g, items, all, firsts);
    SameScopes(g, items, all, firsts);
    hide Written, FirstEdges, SameEdges, LastLinked, LinkedAt, IsFirst;
  }

  lemma OneFirst(items: seq<MemoryProjection>, i: nat, k: nat)
    requires IsFirst(items, i) && IsFirst(items, k) && items[i].id == items[k].id
    ensures i == k
  {}

  lemma LastLinkedWrites(g: State, items: seq<MemoryProjection>, j: int)
    requires LastLinked(g, items, j)
    ensures LastFor(g, items, j)
  {
    forall k | j < k && LinkedAt(g, items, k) ensures LinkOf(items[k]).Id() != LinkOf(items[j]).Id() {
      IdInjective(LinkOf(items[k]), LinkOf(items[j]));
    }
  }

  /** Under `Redundant` the last pointer with an edge id is the last pointer of its id. */
  lemma WriterIsLast(g: State, items: seq<MemoryProjection>, i: nat, j: int)
    requires Redundant(g, items) && LastFor(g, items, j) && IsFirst(items, i) && items[i].id == items[j].id
    ensures LinkedAt(g, items, i) && LinkOf(items[j]) == LinkOf(items[i])
  {
    forall k | j < k && LinkedAt(g, items, k) ensures items[k].id != items[j].id {
      IdInjective(LinkOf(items[k]), LinkOf(items[j]));
    }
    assert LastLinked(g, items, j);
  }

  lemma RedundantImpliesSame(g: State, items: seq<MemoryProjection>, all: map<EdgeId, ConceptEdge>,
                             firsts: map<EdgeId, ConceptEdge>)
    requires Written(g, items, all) && FirstEdges(g, items, firsts) && Redundant(g, items)
    ensures SameEdges(all, firsts)
  {
    hide SupersedesEdgeId, Redundant;
    forall e | e in all ensures e in firsts && Timeless(all[e]) == Timeless(firsts[e]) {
      var j0 :| LinkedAt(g, items, j0) && LinkOf(items[j0]).Id() == e;
      var j := LastForExists(g, items, j0);
      var i := FirstWith(items, j);
      WriterIsLast(g, items, i, j);
    }
    forall e | e in firsts ensures e in all {
      var i: nat :| IsFirst(items, i) && LinkedAt(g, items, i) && LinkOf(items[i]).Id() == e;
      assert LinkedTo(g, items, e);
    }
  }

  lemma SameNodes(items: seq<MemoryProjection>)
    ensures AddItems(items).nodes == AddItems(Firsts(items)).nodes
  {
    FirstsExact(items);
    ItemsGiveNodes(items);
    ItemsGiveNodes(Firsts(items));
    hide Coherent, AddItems, Firsts;
    var a, b := AddItems(items).nodes, AddItems(Firsts(items)).nodes;
    assert a.Keys == b.Keys;
    hide IsFirst;
    forall id | id in a ensures a[id] == b[id] {
      var j: nat :| j < |items| && items[j].id == id;
      var i := FirstWith(items, j);
      var k := FirstListed(items, i);
      assert IsFirst(Firsts(items), k) && IsFirst(items, i);
    }
  }

  lemma FirstListed(items: seq<MemoryProjection>, i: nat) returns (k: nat)
    requires IsFirst(items, i)
    ensures k < |Firsts(items)| && IsFirst(Firsts(items), k) && i < |items| && Firsts(items)[k] == items[i]
  {
    FirstsExact(items);
    hide Firsts, HasId;
    var firsts := Firsts(items);
    assert FirstIs(items, i, items[i]);
    assert items[i] in firsts;
    k :| 0 <= k < |firsts| && firsts[k] == items[i];
  }

  /** Later occurrences never change a node; they leave the edges of the first occurrences alone exactly when their
      pointers repeat the first one's and the last of them repeats its scope. */
  lemma DuplicatesHarmlessIff(items: seq<MemoryProjection>, clockA: nat -> Time, clockB: nat -> Time)
    ensures Project(items, clockA).nodes == Project(Firsts(items), clockB).nodes
    ensures SameEdges(Project(items, clockA).edges, Project(Firsts(items), clockB).edges) <==>
            Redundant(AddItems(items), items)
  {
    hide Coherent, AddItems, AddLinks, Resolved, Pending, Written, FirstEdges, Redundant, SameEdges, EdgesExact, Firsts;
    var g, firsts := AddItems(items), Firsts(items);
    SameNodes(items);
    ItemsGiveNodes(items);
    FirstsExact(items);
    ItemsGiveNodes(firsts);
    LastWins(g, items, clockA);
    LastWins(AddItems(firsts), firsts, clockB);
    ProjectExact(firsts, clockB);
    var all, only := Project(items, clockA).edges, Project(firsts, clockB).edges;
    FirstsGiveEdges(g, items, only);
    if SameEdges(all, only) { SameImpliesRedundant(g, items, all, only); }
    if Redundant(g, items) { RedundantImpliesSame(g, items, all, only); }
  }

  /** The `j`-th input points at another input's id, and no later one repeats that id with that pointer. */
  ghost predicate ResolvesLast(items: seq<MemoryProjection>, j: int) {
    && 0 <= j < |items| && items[j].supersededBy.Some? && items[j].supersededBy.value != items[j].id
    && HasId(items, items[j].supersededBy.value)
    && forall k :: j < k < |items| ==> items[k].id != items[j].id || items[k].supersededBy != items[j].supersededBy
  }

  lemma ResolvesLastIff(g: State, items: seq<MemoryProjection>, j: int)
    requires forall id :: id in g.nodes <==> HasId(items, id)
    ensures ResolvesLast(items, j) <==> LastFor(g, items, j)
  {
    if 0 <= j < |items| && Points(items[j]) {
      assert HasId(items, items[j].id);
      forall k | j < k < |items|
        ensures LinkedAt(g, items, k) && LinkOf(items[k]).Id() == LinkOf(items[j]).Id() && LinkedAt(g, items, j) <==>
                && LinkedAt(g, items, j)
                && items[k].id == items[j].id && items[k].supersededBy == items[j].supersededBy
      {
        if Points(items[k]) { IdInjective(LinkOf(items[k]), LinkOf(items[j])); }
        assert HasId(items, items[k].id);
      }
      hide SupersedesEdgeId;
    }
  }

  /** `edge` is what the input `x` comes to: a supersedes edge from the successor to the superseded. */
  ghost predicate EdgeFor(x: MemoryProjection, edge: ConceptEdge) {
    && x.supersededBy == Some(edge.from) && edge.to == x.id && edge.relation == Supersedes
    && edge.scopeId == x.scopeId && edge.metadata == "null"
    && edge.id == NameBased(Raw(0x6b9c_2d10_7a44_4f1e_9c3b_5e8d_21a7_0f64), [edge.from, edge.to])
  }

  /** `node` has the fields of the input `x`. */
  ghost predicate NodeFor(x: MemoryProjection, node: ConceptNode) {
    && node.id == x.id && node.caption == x.caption && node.definition == x.definition && node.scopeId == x.scopeId
    && node.state == x.state && node.supersededBy == x.supersededBy && node.createdAt == x.createdAt
    && node.updatedAt == x.updatedAt && node.metadata == x.metadata
  }

  lemma {:induction false} SomeResolvesLast(g: State, items: seq<MemoryProjection>, e: EdgeId) returns (j: int)
    requires LinkedTo(g, items, e) && forall id :: id in g.nodes <==> HasId(items, id)
    ensures ResolvesLast(items, j) && LastFor(g, items, j) && LinkOf(items[j]).Id() == e
  {
    var k :| LinkedAt(g, items, k) && LinkOf(items[k]).Id() == e;
    j := LastForExists(g, items, k);
    ResolvesLastIff(g, items, j);
  }

  /** The projection in the inputs' own fields, whatever ids repeat: each id's node is its first occurrence, and the
      edges are those of the pointers to other inputs, each made from the last input that has it. */
  lemma ProjectedFields(items: seq<MemoryProjection>, clock: nat -> Time)
    ensures var g := Project(items, clock);
            && (forall id :: id in g.nodes <==> HasId(items, id))
            && (forall i: nat :: IsFirst(items, i) ==>
                items[i].id in g.nodes && NodeFor(items[i], g.nodes[items[i].id]))
            && (forall j :: ResolvesLast(items, j) ==> exists e :: e in g.edges && EdgeFor(items[j], g.edges[e]))
            && (forall e :: e in g.edges ==>
                  g.edges[e].id == e && exists j :: ResolvesLast(items, j) && EdgeFor(items[j], g.edges[e]))
  {
    hide Coherent, AddItems, AddLinks, Resolved, Pending, LinkedTo;
    var g := AddItems(items);
    ItemsGiveNodes(items);
    LastWins(g, items, clock);
    var edges := Project(items, clock).edges;
    forall j | LastFor(g, items, j)
      ensures LinkOf(items[j]).Id() in edges && EdgeFor(items[j], edges[LinkOf(items[j]).Id()])
    {
      assert Timeless(edges[LinkOf(items[j]).Id()]) == LinkOf(items[j]).Edge(0);
    }
    forall j | ResolvesLast(items, j) ensures exists e :: e in edges && EdgeFor(items[j], edges[e]) {
      ResolvesLastIff(g, items, j);
    }
    forall e | e in edges
      ensures edges[e].id == e && exists j :: ResolvesLast(items, j) && EdgeFor(items[j], edges[e])
    {
      var j := SomeResolvesLast(g, items, e);
    }
  }

  /** An input with nothing but an id and a pointer. */
  function Plain(id: nat, supersededBy: Option<Uuid>): MemoryProjection {
    MemoryProjection(Raw(id), Raw(0), "", "", Candidate, supersededBy, 0, 0, "")
  }

  /** The second input repeats the first one's id, and points at the third. */
  const DROPPING := [Plain(1, None), Plain(1, Some(Raw(2))), Plain(2, None)]

  lemma DroppingNodes()
    ensures AddItems(DROPPING).nodes == map[Raw(1) := Plain(1, None).IntoNode(), Raw(2) := Plain(2, None).IntoNode()]
    ensures AddItems(DROPPING).edges == map[]
  {
    hide Coherent, AddItems;
    ItemsGiveNodes(DROPPING);
    assert IsFirst(DROPPING, 0) && IsFirst(DROPPING, 2);
    assert forall id :: HasId(DROPPING, id) <==> id == Raw(1) || id == Raw(2) by {
      assert DROPPING[0].id == Raw(1) && DROPPING[1].id == Raw(1) && DROPPING[2].id == Raw(2);
    }
  }

  lemma DroppingFirsts(clock: nat -> Time)
    ensures Project(Firsts(DROPPING), clock).edges == map[]
  {
    hide Coherent, AddItems, Project, Firsts, NodesExact;
    FirstsExact(DROPPING);
    assert DROPPING[1].id == DROPPING[0].id;
    forall x | x in Firsts(DROPPING) ensures !Points(x) {
      var i: nat :| FirstIs(DROPPING, i, x);
    }
    ProjectExact(Firsts(DROPPING), clock);
  }

  /** An input dropped as a duplicate still makes an edge, in a graph that is coherent and has no such pointer. */
  lemma DroppedDuplicateLinks(clock: nat -> Time)
    ensures var g := Project(DROPPING, clock);
            && Coherent(g) && SupersedesEdgeId(Raw(2), Raw(1)) in g.edges
            && (forall n :: n in g.nodes ==> g.nodes[n].supersededBy == None)
            && Project(Firsts(DROPPING), clock).edges == map[]
  {
    hide Coherent, SupersedesEdgeId, AddItems, AddLinks, Resolved, Pending, Firsts;
    DroppingNodes();
    DroppingFirsts(clock);
    var g := AddItems(DROPPING);
    assert forall i, j :: !Clash(g, DROPPING, i, j);
    hide Clash;
    ProjectCoherentIff(DROPPING, clock);
    LastWins(g, DROPPING, clock);
    assert LinkedAt(g, DROPPING, 1) && LinkOf(DROPPING[1]).Id() == SupersedesEdgeId(Raw(2), Raw(1));
    assert LinkedTo(g, DROPPING, SupersedesEdgeId(Raw(2), Raw(1)));
  }

  /** Projecting one pointing input and its target again, at another time, gives another graph. */
  lemma SecondProjectionDiffers(clockA: nat -> Time, clockB: nat -> Time)
    requires clockA(0) != clockB(0)
    ensures var items := [Plain(1, Some(Raw(2))), Plain(2, None)];
            Project(items, clockA) != Project(items, clockB)
  {
    hide Coherent, AddItems, Project, SupersedesEdgeId;
    var items := [Plain(1, Some(Raw(2))), Plain(2, None)];
    ProjectIdenticalIff(items, clockA, clockB);
    ItemsGiveNodes(items);
    assert HasId(items, items[0].id) && HasId(items, items[1].id);
    var l := LinkOf(items[0]);
    assert items[..1] == [items[0]] && items[..1][..0] == [];
    assert Pending([]) == [] && Pending([items[0]]) == [l] && Pending(items) == [l];
    assert [l][..0] == [] && Resolved(AddItems(items), [l]) == [l];
    assert IsLast(Kept(items), 0);
  }

  /** A scope in the middle is overwritten: only the last one has to repeat the first. */
  lemma OverwrittenScopeHarmless(clock: nat -> Time)
    ensures var x := Plain(1, Some(Raw(2)));
            var items := [x, x.(scopeId := Raw(9)), x, Plain(2, None)];
            SameEdges(Project(items, clock).edges, Project(Firsts(items), clock).edges)
  {
    hide AddItems, Project, Firsts, SameEdges;
    var x := Plain(1, Some(Raw(2)));
    var items := [x, x.(scopeId := Raw(9)), x, Plain(2, None)];
    var g := AddItems(items);
    assert LinkedAt(g, items, 1) <==> LinkedAt(g, items, 2);
    assert !LastLinked(g, items, 1);
    forall i: nat | IsFirst(items, i) ensures i == 0 || i == 3 { assert items[0].id == items[1].id == items[2].id; }
    assert Redundant(g, items);
    DuplicatesHarmlessIff(items, clock, clock);
  }

  /** The same pointing input given twice leaves an incoherent graph. */
  lemma RepeatedPointerIncoherent(clock: nat -> Time)
    ensures var x, y := Plain(1, Some(Raw(2))), Plain(2, None);
            !Coherent(Project([x, x, y], clock)) && Coherent(Project([x, y], clock))
  {
    hide Coherent, AddItems, Project;
    var x, y := Plain(1, Some(Raw(2))), Plain(2, None);
    var items := [x, x, y];
    ItemsGiveNodes(items);
    assert HasId(items, items[0].id) && HasId(items, items[2].id);
    assert Clash(AddItems(items), items, 0, 1);
    ProjectCoherentIff(items, clock);
    ProjectExact([x, y], clock);
  }

  // ---------------------------------------------------------------- the program

  lemma ResolvedNone(g: State, clock: nat -> Time)
    ensures Resolved(g, []) == [] && AddLinks(g, [], clock) == g
  {}

  /** What one pending link adds. */
  lemma ResolvedNext(g: State, pending: seq<Link>, i: nat, clock: nat -> Time)
    requires i < |pending|
    ensures var done, link := Resolved(g, pending[..i]), pending[i];
            if link.successor in g.nodes && link.predecessor in g.nodes then
              && |Resolved(g, pending[..i + 1])| == |done| + 1
              && AddLinks(g, Resolved(g, pending[..i + 1]), clock)
                 == AddEdge(AddLinks(g, done, clock), link.Edge(clock(|done|))).graph
              && AddLinks(g, Resolved(g, pending[..i + 1]), clock).nodes == AddLinks(g, done, clock).nodes
            else Resolved(g, pending[..i + 1]) == done
  {
    hide SupersedesEdgeId;
    assert pending[..i + 1][..i] == pending[..i];
    var done := Resolved(g, pending[..i]);
    assert (done + [pending[i]])[..|done|] == done;
  }

  method ProjectMemoryGraph(items: seq<MemoryProjection>, clock: nat -> Time) returns (graph: ConceptGraph)
    ensures fresh(graph) && graph.View() == Project(items, clock)
  {
    graph := new ConceptGraph();
    var pending: seq<Link> := [];
    var present: set<NodeId> := {};
    for i := 0 to |items|
      invariant fresh(graph) && graph.View() == AddItems(items[..i])
      invariant pending == Pending(items[..i]) && present == graph.nodes.Keys
    {
      assert items[..i + 1][..i] == items[..i];
      var item := items[i];
      if item.supersededBy.Some? {
        var successor := item.supersededBy.value;
        if successor != item.id {
          pending := pending + [Link(successor, item.id, item.scopeId)];
        }
      }
      var added := graph.AddNode(item.IntoNode());
      if added.Ok? {
        present := present + {item.id};
      }
    }
    assert items[..|items|] == items;
    ghost var g := graph.View();
    hide Resolved, AddLinks, Graph.AddEdge, SupersedesEdgeId;
    var stamped := 0;
    ResolvedNone(g, clock);
    assert pending[..0] == [];
    for i := 0 to |pending|
      invariant fresh(graph) && stamped == |Resolved(g, pending[..i])| && present == graph.nodes.Keys == g.nodes.Keys
      invariant graph.View() == AddLinks(g, Resolved(g, pending[..i]), clock)
    {
      var link := pending[i];
      ResolvedNext(g, pending, i, clock);
      if link.successor !in present || link.predecessor !in present {
        continue;
      }
      var edge := link.Edge(clock(stamped));
      var _ := graph.AddEdge(edge);
      stamped := stamped + 1;
    }
    assert pending[..|pending|] == pending;
  }
}
