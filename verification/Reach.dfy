/** Bounded reachability in a finite directed graph, and the invariant of a breadth-first search. */
module Reach {
  import opened Basics

  type Steps = map<Uuid, set<Uuid>>

  function Next(steps: Steps, v: Uuid): set<Uuid> {
    if v in steps then steps[v] else {}
  }

  ghost function Image(steps: Steps, s: set<Uuid>): set<Uuid> {
    set v, w | v in s && w in Next(steps, v) :: w
  }

  /** The vertices at most `d` steps away from `seeds`. */
  ghost function Ball(steps: Steps, seeds: set<Uuid>, d: nat): set<Uuid> {
    if d == 0 then seeds
    else Ball(steps, seeds, d - 1) + Image(steps, Ball(steps, seeds, d - 1))
  }

  ghost predicate Reached(steps: Steps, seeds: set<Uuid>, v: Uuid) {
    exists d: nat :: v in Ball(steps, seeds, d)
  }

  /** Reachable within an optional bound. */
  ghost predicate Within(steps: Steps, seeds: set<Uuid>, max: Option<nat>, v: Uuid) {
    if max.Some? then v in Ball(steps, seeds, max.value) else Reached(steps, seeds, v)
  }

  /** Listed in non-decreasing shortest distance from `seeds`. */
  ghost predicate NearestFirst(steps: Steps, seeds: set<Uuid>, s: seq<Uuid>) {
    forall i, j, k: nat :: 0 <= i < j < |s| && s[j] in Ball(steps, seeds, k) ==> s[i] in Ball(steps, seeds, k)
  }

  // ---------------------------------------------------------------- walks

  ghost predicate IsWalk(steps: Steps, p: seq<Uuid>) {
    p != [] && forall i :: 0 <= i < |p| - 1 ==> p[i + 1] in Next(steps, p[i])
  }

  ghost predicate Connects(steps: Steps, seeds: set<Uuid>, v: Uuid, d: nat, p: seq<Uuid>) {
    IsWalk(steps, p) && p[0] in seeds && p[|p| - 1] == v && |p| <= d + 1
  }

  /** A ball is the set of ends of walks of at most `d` steps. */
  lemma {:induction false} BallIsWalks(steps: Steps, seeds: set<Uuid>, d: nat, v: Uuid)
    ensures v in Ball(steps, seeds, d) <==> exists p :: Connects(steps, seeds, v, d, p)
  {
    if v in Ball(steps, seeds, d) {
      var p := WalkInto(steps, seeds, d, v);
    }
    forall p | Connects(steps, seeds, v, d, p) ensures v in Ball(steps, seeds, d) {
      WalkStays(steps, seeds, d, v, p);
    }
  }

  lemma {:induction false} WalkInto(steps: Steps, seeds: set<Uuid>, d: nat, v: Uuid) returns (p: seq<Uuid>)
    requires v in Ball(steps, seeds, d)
    ensures Connects(steps, seeds, v, d, p)
  {
    if d == 0 {
      p := [v];
    } else if v in Ball(steps, seeds, d - 1) {
      p := WalkInto(steps, seeds, d - 1, v);
    } else {
      var u :| u in Ball(steps, seeds, d - 1) && v in Next(steps, u);
      var q := WalkInto(steps, seeds, d - 1, u);
      p := q + [v];
    }
  }

  lemma {:induction false} WalkStays(steps: Steps, seeds: set<Uuid>, d: nat, v: Uuid, p: seq<Uuid>)
    requires Connects(steps, seeds, v, d, p)
    ensures v in Ball(steps, seeds, d)
    decreases d
  {
    if d > 0 {
      if |p| == 1 {
        WalkStays(steps, seeds, d - 1, v, p);
      } else {
        var u := p[|p| - 2];
        WalkStays(steps, seeds, d - 1, u, p[..|p| - 1]);
        assert p[|p| - 2 + 1] in Next(steps, u);
      }
    }
  }

  // ---------------------------------------------------------------- balls

  lemma {:induction false} BallGrows(steps: Steps, seeds: set<Uuid>, a: nat, b: nat)
    requires a <= b
    ensures Ball(steps, seeds, a) <= Ball(steps, seeds, b)
  {
    if a < b { BallGrows(steps, seeds, a, b - 1); }
  }

  lemma BallStep(steps: Steps, seeds: set<Uuid>, d: nat, u: Uuid, w: Uuid)
    requires u in Ball(steps, seeds, d) && w in Next(steps, u)
    ensures w in Ball(steps, seeds, d + 1)
  {}

  lemma BallZero(steps: Steps, seeds: set<Uuid>)
    ensures Ball(steps, seeds, 0) == seeds
  {}

  lemma BallBack(steps: Steps, seeds: set<Uuid>, d: nat, v: Uuid) returns (u: Uuid)
    requires d > 0 && v in Ball(steps, seeds, d) && v !in Ball(steps, seeds, d - 1)
    ensures u in Ball(steps, seeds, d - 1) && v in Next(steps, u)
  {
    u :| u in Ball(steps, seeds, d - 1) && v in Next(steps, u);
  }

  lemma {:induction false} BallMonotone(small: Steps, big: Steps, seeds: set<Uuid>, d: nat)
    requires forall v, w {:trigger w in Next(small, v)} :: w in Next(small, v) ==> w == v || w in Next(big, v)
    ensures Ball(small, seeds, d) <= Ball(big, seeds, d)
  {
    hide Ball, Next;
    if d == 0 {
      BallZero(small, seeds);
      BallZero(big, seeds);
    } else {
      BallMonotone(small, big, seeds, d - 1);
      BallGrows(big, seeds, d - 1, d);
      forall v | v in Ball(small, seeds, d) ensures v in Ball(big, seeds, d) {
        if v !in Ball(small, seeds, d - 1) {
          var u := BallBack(small, seeds, d, v);
          if v != u { BallStep(big, seeds, d - 1, u, v); }
        }
      }
    }
  }

  /** Steps that stay inside a set containing the ball lose nothing of it. */
  lemma {:induction false} BallRestricted(big: Steps, small: Steps, seeds: set<Uuid>, inside: set<Uuid>, d: nat)
    requires Ball(big, seeds, d) <= inside
    requires forall v, w {:trigger w in Next(big, v)} :: w in Next(big, v) && w in inside ==> w in Next(small, v)
    ensures Ball(big, seeds, d) <= Ball(small, seeds, d)
  {
    hide Ball, Next;
    if d == 0 {
      BallZero(big, seeds);
      BallZero(small, seeds);
    } else {
      BallGrows(big, seeds, d - 1, d);
      BallRestricted(big, small, seeds, inside, d - 1);
      BallGrows(small, seeds, d - 1, d);
      forall v | v in Ball(big, seeds, d) ensures v in Ball(small, seeds, d) {
        if v !in Ball(big, seeds, d - 1) {
          var u := BallBack(big, seeds, d, v);
          BallStep(small, seeds, d - 1, u, v);
        }
      }
    }
  }

  /** If every step of `big` inside the set is a step of `small` or lands on something `small` reaches, so does the
      ball. */
  lemma {:induction false} BallReached(big: Steps, small: Steps, seeds: set<Uuid>, inside: set<Uuid>, d: nat)
    requires Ball(big, seeds, d) <= inside
    requires forall u, v :: v in Next(big, u) && v in inside ==> v in Next(small, u) || Reached(small, seeds, v)
    ensures forall v :: v in Ball(big, seeds, d) ==> Reached(small, seeds, v)
  {
    if d == 0 {
      assert Ball(small, seeds, 0) == seeds;
    } else {
      hide Ball;
      BallGrows(big, seeds, d - 1, d);
      BallReached(big, small, seeds, inside, d - 1);
      forall v | v in Ball(big, seeds, d) && v !in Ball(big, seeds, d - 1) ensures Reached(small, seeds, v) {
        var u := BallBack(big, seeds, d, v);
        if v in Next(small, u) {
          var k: nat :| u in Ball(small, seeds, k);
          BallStep(small, seeds, k, u, v);
        }
      }
    }
  }

  ghost predicate ClosedIn(steps: Steps, seeds: set<Uuid>, universe: set<Uuid>) {
    seeds <= universe && forall v, w :: v in universe && w in Next(steps, v) ==> w in universe
  }

  lemma {:induction false} BallInside(steps: Steps, seeds: set<Uuid>, universe: set<Uuid>, d: nat)
    requires ClosedIn(steps, seeds, universe)
    ensures Ball(steps, seeds, d) <= universe
  {
    if d > 0 { BallInside(steps, seeds, universe, d - 1); }
  }

  lemma ProperSubsetSmaller(a: set<Uuid>, b: set<Uuid>)
    requires a < b
    ensures |a| < |b|
  {
    var x :| x in b && x !in a;
    SubsetNoLarger(a, b - {x});
  }

  lemma {:induction false} SubsetNoLarger(a: set<Uuid>, b: set<Uuid>)
    requires a <= b
    ensures |a| <= |b|
  {
    if a != {} {
      var x :| x in a;
      SubsetNoLarger(a - {x}, b - {x});
    }
  }

  lemma BallStable(steps: Steps, seeds: set<Uuid>, k: nat)
    requires Ball(steps, seeds, k + 1) == Ball(steps, seeds, k)
    ensures Ball(steps, seeds, k + 2) == Ball(steps, seeds, k + 1)
  {}

  lemma {:induction false} BallSettles(steps: Steps, seeds: set<Uuid>, k: nat)
    ensures Ball(steps, seeds, k + 1) == Ball(steps, seeds, k) || |Ball(steps, seeds, k + 1)| > k
  {
    hide Ball;
    BallGrows(steps, seeds, k, k + 1);
    if Ball(steps, seeds, k + 1) != Ball(steps, seeds, k) {
      ProperSubsetSmaller(Ball(steps, seeds, k), Ball(steps, seeds, k + 1));
      if k > 0 {
        if Ball(steps, seeds, k) == Ball(steps, seeds, k - 1) { BallStable(steps, seeds, k - 1); }
        BallSettles(steps, seeds, k - 1);
      }
    }
  }

  lemma {:induction false} BallFixed(steps: Steps, seeds: set<Uuid>, a: nat, b: nat)
    requires a <= b && Ball(steps, seeds, a + 1) == Ball(steps, seeds, a)
    ensures Ball(steps, seeds, b) == Ball(steps, seeds, a)
  {
    if a < b { BallFixed(steps, seeds, a, b - 1); }
  }

  /** As many steps as there are vertices reach everything reachable. */
  lemma BallIsClosure(steps: Steps, seeds: set<Uuid>, universe: set<Uuid>, d: nat)
    requires ClosedIn(steps, seeds, universe) && |universe| <= d
    ensures forall v :: v in Ball(steps, seeds, d) <==> Reached(steps, seeds, v)
  {
    BallInside(steps, seeds, universe, d + 1);
    SubsetNoLarger(Ball(steps, seeds, d + 1), universe);
    BallSettles(steps, seeds, d);
    forall v | Reached(steps, seeds, v) ensures v in Ball(steps, seeds, d) {
      var k: nat :| v in Ball(steps, seeds, k);
      if k <= d { BallGrows(steps, seeds, k, d); } else { BallFixed(steps, seeds, d, k); }
    }
  }

  // ---------------------------------------------------------------- breadth-first search

  /** A queued vertex with its depth. */
  datatype Stop = Stop(node: Uuid, depth: nat)
  type Queue = seq<Stop>

  /** How deep a search first met each vertex, and from where. */
  datatype Found = Found(depth: map<Uuid, nat>, via: map<Uuid, Uuid>) {
    ghost function Add(w: Uuid, d: nat, cur: Uuid): Found {
      Found(depth[w := d], via[w := cur])
    }
  }

  ghost function Queued(queue: Queue): set<Uuid> {
    set i | 0 <= i < |queue| :: queue[i].node
  }

  ghost predicate Below(max: Option<nat>, d: nat) {
    max.Some? ==> d < max.value
  }

  ghost predicate Expanded(steps: Steps, max: Option<nat>, found: Found, v: Uuid)
    requires v in found.depth
  {
    Below(max, found.depth[v]) ==>
      forall w {:trigger w in Next(steps, v)} :: w in Next(steps, v) ==>
          w in found.depth && found.depth[w] <= found.depth[v] + 1
  }

  /** Every discovered vertex is a seed or one step from the vertex it was met from. */
  ghost predicate Sound(steps: Steps, seeds: set<Uuid>, max: Option<nat>, found: Found) {
    && (forall v :: v in seeds ==> v in found.depth && found.depth[v] == 0)
    && (forall v :: v in found.depth && max.Some? ==> found.depth[v] <= max.value)
    && (forall v :: v in found.depth ==> v in seeds || v in found.via)
    && forall v {:trigger found.via[v]} :: v in found.via ==>
         && found.via[v] in found.depth
         && v in Next(steps, found.via[v])
         && v in found.depth && found.depth[v] == found.depth[found.via[v]] + 1
  }

  /** The queue holds discovered vertices with their depths, nearest first. */
  ghost predicate Ordered(queue: Queue, found: Found) {
    && (forall i :: 0 <= i < |queue| ==> queue[i].node in found.depth && found.depth[queue[i].node] == queue[i].depth)
    && forall i, j :: 0 <= i < j < |queue| ==> queue[i].depth <= queue[j].depth
  }

  /** Invariant between two pops. */
  ghost predicate Searching(steps: Steps, seeds: set<Uuid>, max: Option<nat>, queue: Queue, found: Found) {
    && Sound(steps, seeds, max, found)
    && Ordered(queue, found)
    && (queue != [] ==> forall v :: v in found.depth ==> found.depth[v] <= queue[0].depth + 1)
    && forall v :: v in found.depth ==> v in Queued(queue) || Expanded(steps, max, found, v)
  }

  /** Invariant while the vertex `cur` is being expanded. */
  ghost predicate Expanding(steps: Steps, seeds: set<Uuid>, max: Option<nat>, queue: Queue, found: Found, cur: Uuid) {
    && Sound(steps, seeds, max, found)
    && Ordered(queue, found)
    && cur in found.depth
    && (forall i :: 0 <= i < |queue| ==> found.depth[cur] <= queue[i].depth)
    && (forall v :: v in found.depth ==> found.depth[v] <= found.depth[cur] + 1)
    && forall v :: v in found.depth ==> v in Queued(queue) || v == cur || Expanded(steps, max, found, v)
  }

  lemma SearchPop(steps: Steps, seeds: set<Uuid>, max: Option<nat>, queue: Queue, found: Found)
    requires Searching(steps, seeds, max, queue, found) && queue != []
    ensures Expanding(steps, seeds, max, queue[1..], found, queue[0].node)
    ensures queue[0].node in found.depth && found.depth[queue[0].node] == queue[0].depth
  {
    forall v | v in Queued(queue) && v != queue[0].node ensures v in Queued(queue[1..]) {
      var i :| 0 <= i < |queue| && queue[i].node == v;
      assert queue[1..][i - 1].node == v;
    }
  }

  lemma SoundVisit(steps: Steps, seeds: set<Uuid>, max: Option<nat>, found: Found, cur: Uuid, w: Uuid)
    requires Sound(steps, seeds, max, found) && cur in found.depth
    requires Below(max, found.depth[cur]) && w in Next(steps, cur) && w !in found.depth
    ensures Sound(steps, seeds, max, found.Add(w, found.depth[cur] + 1, cur))
  {}

  lemma OrderedVisit(queue: Queue, found: Found, d: nat, via: Uuid, w: Uuid)
    requires Ordered(queue, found) && w !in found.depth
    requires forall v :: v in found.depth ==> found.depth[v] <= d
    ensures Ordered(queue + [Stop(w, d)], found.Add(w, d, via))
  {}

  lemma ExpandedVisit(steps: Steps, max: Option<nat>, found: Found, v: Uuid, w: Uuid, d: nat, via: Uuid)
    requires v in found.depth && Expanded(steps, max, found, v) && w !in found.depth
    ensures Expanded(steps, max, found.Add(w, d, via), v)
  {}

  lemma QueuedPush(queue: Queue, stop: Stop)
    ensures Queued(queue + [stop]) == Queued(queue) + {stop.node}
  {
    var queue' := queue + [stop];
    forall v | v in Queued(queue) ensures v in Queued(queue') {
      var i :| 0 <= i < |queue| && queue[i].node == v;
      assert queue'[i].node == v;
    }
    assert queue'[|queue|].node == stop.node;
  }

  lemma SearchVisit(steps: Steps, seeds: set<Uuid>, max: Option<nat>, queue: Queue, found: Found, cur: Uuid, w: Uuid)
    requires Expanding(steps, seeds, max, queue, found, cur)
    requires Below(max, found.depth[cur]) && w in Next(steps, cur) && w !in found.depth
    ensures Expanding(steps, seeds, max, queue + [Stop(w, found.depth[cur] + 1)],
            found.Add(w, found.depth[cur] + 1, cur), cur)
  {
    hide Sound, Ordered, Expanded, Queued;
    var d := found.depth[cur] + 1;
    SoundVisit(steps, seeds, max, found, cur, w);
    OrderedVisit(queue, found, d, cur, w);
    QueuedPush(queue, Stop(w, d));
    forall v | v in found.depth && v !in Queued(queue) && v != cur
      ensures Expanded(steps, max, found.Add(w, d, cur), v)
    {
      ExpandedVisit(steps, max, found, v, w, d, cur);
    }
  }

  lemma SearchDone(steps: Steps, seeds: set<Uuid>, max: Option<nat>, queue: Queue, found: Found, cur: Uuid)
    requires Expanding(steps, seeds, max, queue, found, cur)
    requires Below(max, found.depth[cur]) ==> forall w :: w in Next(steps, cur) ==> w in found.depth
    ensures Searching(steps, seeds, max, queue, found)
  {}

  lemma ViaStep(steps: Steps, seeds: set<Uuid>, max: Option<nat>, found: Found, v: Uuid)
    requires Sound(steps, seeds, max, found) && v in found.depth && v !in seeds
    ensures v in found.via && found.via[v] in found.depth && v in Next(steps, found.via[v])
    ensures found.depth[v] == found.depth[found.via[v]] + 1
  {
    assert v in found.via;
    var u := found.via[v];
  }

  lemma SeedDepth(steps: Steps, seeds: set<Uuid>, max: Option<nat>, found: Found, v: Uuid)
    requires Sound(steps, seeds, max, found) && v in seeds
    ensures v in found.depth && found.depth[v] == 0
  {}

  lemma {:induction false} SearchSound(steps: Steps, seeds: set<Uuid>, max: Option<nat>, found: Found, v: Uuid)
    requires Sound(steps, seeds, max, found) && v in found.depth
    ensures v in Ball(steps, seeds, found.depth[v])
    decreases found.depth[v]
  {
    hide Sound, Next;
    if v in seeds {
      SeedDepth(steps, seeds, max, found, v);
    } else {
      hide Ball;
      ViaStep(steps, seeds, max, found, v);
      var u := found.via[v];
      SearchSound(steps, seeds, max, found, u);
      BallStep(steps, seeds, found.depth[u], u, v);
    }
  }

  lemma {:induction false} SearchComplete(steps: Steps, seeds: set<Uuid>, max: Option<nat>, found: Found, k: nat)
    requires Searching(steps, seeds, max, [], found)
    requires max.Some? ==> k <= max.value
    ensures forall v :: v in Ball(steps, seeds, k) <==> v in found.depth && found.depth[v] <= k
  {
    forall v | v in found.depth && found.depth[v] <= k ensures v in Ball(steps, seeds, k) {
      SearchSound(steps, seeds, max, found, v);
      BallGrows(steps, seeds, found.depth[v], k);
    }
    if k > 0 {
      SearchComplete(steps, seeds, max, found, k - 1);
      forall v | v in Ball(steps, seeds, k) && v !in Ball(steps, seeds, k - 1)
        ensures v in found.depth && found.depth[v] <= k
      {
        var u :| u in Ball(steps, seeds, k - 1) && v in Next(steps, u);
        assert Expanded(steps, max, found, u);
      }
    }
  }

  /** A finished search has discovered exactly the vertices within the bound. */
  lemma SearchExact(steps: Steps, seeds: set<Uuid>, max: Option<nat>, found: Found)
    requires Searching(steps, seeds, max, [], found)
    ensures forall v :: v in found.depth <==> Within(steps, seeds, max, v)
  {
    if max.Some? {
      SearchComplete(steps, seeds, max, found, max.value);
    } else {
      forall v | v in found.depth ensures Reached(steps, seeds, v) { SearchSound(steps, seeds, max, found, v); }
      forall v | Reached(steps, seeds, v) ensures v in found.depth {
        var k: nat :| v in Ball(steps, seeds, k);
        SearchComplete(steps, seeds, max, found, k);
      }
    }
  }

  ghost predicate ByDepth(found: Found, s: seq<Uuid>) {
    && (forall i :: 0 <= i < |s| ==> s[i] in found.depth)
    && forall i, j :: 0 <= i < j < |s| ==> found.depth[s[i]] <= found.depth[s[j]]
  }

  /** Discovery in order of recorded depth is discovery in order of distance. */
  lemma SearchNearestFirst(steps: Steps, seeds: set<Uuid>, max: Option<nat>, found: Found, s: seq<Uuid>)
    requires Searching(steps, seeds, max, [], found) && ByDepth(found, s)
    ensures NearestFirst(steps, seeds, s)
  {
    forall i, j, k: nat | 0 <= i < j < |s| && s[j] in Ball(steps, seeds, k)
      ensures s[i] in Ball(steps, seeds, k)
    {
      if max.Some? && max.value < k {
        SearchSound(steps, seeds, max, found, s[i]);
        BallGrows(steps, seeds, found.depth[s[i]], k);
      } else {
        SearchComplete(steps, seeds, max, found, k);
      }
    }
  }

  lemma ByDepthPush(
    steps: Steps, seeds: set<Uuid>, max: Option<nat>, queue: Queue, found: Found, cur: Uuid, s: seq<Uuid>, w: Uuid)
    requires Expanding(steps, seeds, max, queue, found, cur)
    requires ByDepth(found, s) && w !in found.depth
    ensures ByDepth(found.Add(w, found.depth[cur] + 1, cur), s + [w])
  {}

  /** The search before its first pop: the seeds, possibly repeated, at depth 0. */
  lemma SearchStart(steps: Steps, max: Option<nat>, s: seq<Uuid>)
    ensures var found := Found(map v | v in Elements(s) :: 0, map[]);
            && Searching(steps, Elements(s), max, Stops(s, 0), found)
            && found.depth.Keys == Elements(s)
            && forall t :: (forall v :: v in t ==> v in s) ==> ByDepth(found, t)
  {
    var found := Found(map v | v in Elements(s) :: 0, map[]);
    forall v | v in found.depth ensures v in Queued(Stops(s, 0)) {
      var i :| 0 <= i < |s| && s[i] == v;
      assert Stops(s, 0)[i].node == v;
    }
    forall t | forall v :: v in t ==> v in s ensures ByDepth(found, t) {
      forall i | 0 <= i < |t| ensures t[i] in found.depth { assert t[i] in s; }
    }
  }

  /** A queued vertex has depth 0 exactly when it is a seed. */
  lemma SearchHead(steps: Steps, seeds: set<Uuid>, max: Option<nat>, queue: Queue, found: Found)
    requires Searching(steps, seeds, max, queue, found) && queue != []
    ensures queue[0].depth == 0 <==> queue[0].node in seeds
    ensures queue[0].node in found.depth && found.depth[queue[0].node] == queue[0].depth
    ensures max.Some? ==> queue[0].depth <= max.value
  {
    var v := queue[0].node;
    assert v in found.depth;
    if v !in seeds {
      assert v in found.via;
      assert found.depth[v] == found.depth[found.via[v]] + 1;
    }
  }

  /** The vertices of a queue, without depths. */
  ghost function Nodes(queue: Queue): seq<Uuid> {
    seq(|queue|, i requires 0 <= i < |queue| => queue[i].node)
  }

  lemma NodesAppend(queue: Queue, s: seq<Uuid>, d: nat)
    ensures Nodes(Stops(s, d)) == s
    ensures queue != [] ==> Nodes(queue)[1..] + s == Nodes(queue[1..] + Stops(s, d)) && Nodes(queue)[0] == queue[0].node
  {}

  // ---------------------------------------------------------------- expanding one vertex

  function Elements(s: seq<Uuid>): set<Uuid> {
    set v | v in s
  }

  /** The entries of `next` that are not yet in `seen`, each at its first occurrence. */
  function Unseen(next: seq<Uuid>, seen: set<Uuid>): seq<Uuid> {
    if next == [] then []
    else
      var front, last := Unseen(next[..|next| - 1], seen), next[|next| - 1];
      if last in seen || last in front then front else front + [last]
  }

  function Stops(s: seq<Uuid>, d: nat): (queue: Queue)
    ensures |queue| == |s|
  {
    seq(|s|, i requires 0 <= i < |s| => Stop(s[i], d))
  }

  lemma {:induction false} UnseenMembers(next: seq<Uuid>, seen: set<Uuid>)
    ensures NoDup(Unseen(next, seen))
    ensures forall v :: v in Unseen(next, seen) <==> v in next && v !in seen
  {
    if next != [] {
      var front := next[..|next| - 1];
      UnseenMembers(front, seen);
      assert next == front + [next[|next| - 1]];
    }
  }

  lemma UnseenGrows(next: seq<Uuid>, seen: set<Uuid>)
    ensures Unseen(next, seen) != [] ==> seen < seen + Elements(Unseen(next, seen))
  {
    UnseenMembers(next, seen);
    var novel := Unseen(next, seen);
    if novel != [] {
      assert novel[0] in Elements(novel) && novel[0] in novel;
    }
  }

  lemma UnseenStart(next: seq<Uuid>, seen: set<Uuid>, d: nat)
    ensures Unseen(next[..0], seen) == [] && Stops([], d) == []
  {}

  /** One turn of a loop that pushes what `insert` reports as new. */
  lemma UnseenPush(next: seq<Uuid>, i: nat, seen: set<Uuid>)
    requires i < |next|
    ensures var before := Unseen(next[..i], seen);
            if next[i] in seen + Elements(before) then Unseen(next[..i + 1], seen) == before
            else
              && Unseen(next[..i + 1], seen) == before + [next[i]]
              && Elements(before + [next[i]]) == Elements(before) + {next[i]}
              && forall d: nat :: Stops(before + [next[i]], d) == Stops(before, d) + [Stop(next[i], d)]
  {
    assert next[..i + 1][..i] == next[..i];
  }

  /** `found'` keeps every depth recorded in `found`. */
  ghost predicate Keeps(found: Found, found': Found) {
    forall v :: v in found.depth ==> v in found'.depth && found'.depth[v] == found.depth[v]
  }

  ghost function Discover(found: Found, novel: seq<Uuid>, d: nat, cur: Uuid): Found {
    if novel == [] then found else Discover(found, novel[..|novel| - 1], d, cur).Add(novel[|novel| - 1], d, cur)
  }

  lemma StopsPush(queue: Queue, front: seq<Uuid>, last: Uuid, d: nat)
    ensures queue + Stops(front + [last], d) == (queue + Stops(front, d)) + [Stop(last, d)]
  {}

  ghost predicate At(found: Found, v: Uuid, d: nat) {
    v in found.depth && found.depth[v] == d
  }

  lemma {:induction false} ExpandFresh(
    steps: Steps, seeds: set<Uuid>, max: Option<nat>, queue: Queue, found: Found, cur: Uuid, d: nat,
    novel: seq<Uuid>, listed: seq<Uuid>)
    requires At(found, cur, d) && Below(max, d)
    requires Expanding(steps, seeds, max, queue, found, cur)
    requires NoDup(novel) && forall w :: w in novel ==> w in Next(steps, cur) && w !in found.depth
    requires ByDepth(found, listed)
    ensures var found' := Discover(found, novel, d + 1, cur);
            && found'.depth.Keys == found.depth.Keys + Elements(novel)
            && At(found', cur, d) && Keeps(found, found')
            && Expanding(steps, seeds, max, queue + Stops(novel, d + 1), found', cur)
            && ByDepth(found', listed + novel)
    decreases novel
  {
    hide Expanding, ByDepth, Next, Below, Stops;
    if novel == [] {
      assert queue + Stops(novel, d + 1) == queue by { StopsNone(d + 1); }
      assert listed + novel == listed;
    } else {
      var front, last := novel[..|novel| - 1], novel[|novel| - 1];
      assert novel == front + [last];
      ExpandFresh(steps, seeds, max, queue, found, cur, d, front, listed);
      var mid := Discover(found, front, d + 1, cur);
      var queue' := queue + Stops(front, d + 1);
      SearchVisit(steps, seeds, max, queue', mid, cur, last);
      ByDepthPush(steps, seeds, max, queue', mid, cur, listed + front, last);
      StopsPush(queue, front, last, d + 1);
      assert listed + novel == listed + front + [last];
    }
  }

  lemma StopsNone(d: nat)
    ensures Stops([], d) == []
  {}

  /** Popping a vertex below the bound and queueing its undiscovered successors keeps the invariant. */
  lemma SearchExpand(
    steps: Steps, seeds: set<Uuid>, max: Option<nat>, queue: Queue, found: Found, next: seq<Uuid>, listed: seq<Uuid>)
    returns (found': Found)
    requires Searching(steps, seeds, max, queue, found) && queue != [] && Below(max, queue[0].depth)
    requires Elements(next) == Next(steps, queue[0].node)
    requires ByDepth(found, listed)
    ensures var novel := Unseen(next, found.depth.Keys);
            && Searching(steps, seeds, max, queue[1..] + Stops(novel, queue[0].depth + 1), found')
            && found'.depth.Keys == found.depth.Keys + Elements(novel)
            && Keeps(found, found')
            && ByDepth(found', listed + novel)
  {
    hide Searching, Expanding, ByDepth;
    var cur, d := queue[0].node, queue[0].depth;
    var novel := Unseen(next, found.depth.Keys);
    UnseenMembers(next, found.depth.Keys);
    assert forall w :: w in next <==> w in Elements(next);
    SearchPop(steps, seeds, max, queue, found);
    ExpandFresh(steps, seeds, max, queue[1..], found, cur, d, novel, listed);
    found' := Discover(found, novel, d + 1, cur);
    SearchDone(steps, seeds, max, queue[1..] + Stops(novel, d + 1), found', cur);
  }

  /** Popping a vertex at the bound keeps the invariant. */
  lemma SearchSkip(steps: Steps, seeds: set<Uuid>, max: Option<nat>, queue: Queue, found: Found)
    requires Searching(steps, seeds, max, queue, found) && queue != [] && !Below(max, queue[0].depth)
    ensures Searching(steps, seeds, max, queue[1..], found)
  {
    SearchPop(steps, seeds, max, queue, found);
    SearchDone(steps, seeds, max, queue[1..], found, queue[0].node);
  }
}
