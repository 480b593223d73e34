/** The append-only audit log, its secondary indexes and its query planner. */
module AuditLogs {
  import opened Basics

  type EntryId = Uuid

  const U64_MAX: nat := 0xFFFF_FFFF_FFFF_FFFF

  datatype Actor = User(id: Uuid) | Agent(id: Uuid) | System

  datatype ActionType =
    | CanonicalPromotion | Export | AgentProposal | PolicyChange | MemberProvisioned | MemberRemoved
    | TenantLifecycle | KeyDestruction | ExportRendered | ExportSimulated
    | AgentProposalSubmitted | AgentProposalPromoted | AgentProposalRejected

  datatype TargetType =
    | Tenant | Domain | Channel | UserTarget | MemoryObject | Concept | Summary | ExportProfile | Policy | Key
    | AgentTarget

  datatype TargetRef = TargetRef(targetType: TargetType, targetId: Uuid)

  datatype AuditEntry = AuditEntry(
    id: EntryId, sequence: nat, timestamp: Time, actor: Actor, action: ActionType,
    target: TargetRef, scopeId: Option<ScopeId>, details: string)

  datatype AuditQuery = AuditQuery(
    scopeId: Option<ScopeId>, actionTypes: seq<ActionType>, since: Option<Time>, until: Option<Time>,
    actorId: Option<Uuid>)
  {
    /** The filters that an index serves. */
    predicate MatchesIndexed(e: AuditEntry) {
      && (scopeId.Some? ==> e.scopeId == scopeId)
      && (actionTypes != [] ==> e.action in actionTypes)
      && (actorId.Some? ==> !e.actor.System? && e.actor.id == actorId.value)
    }

    predicate Matches(e: AuditEntry) {
      if scopeId.Some? && e.scopeId != scopeId then false
      else if actionTypes != [] && e.action !in actionTypes then false
      else if since.Some? && e.timestamp < since.value then false
      else if until.Some? && e.timestamp > until.value then false
      else if actorId.Some? then
        match e.actor
        case System => false
        case User(id) => id == actorId.value
        case Agent(id) => id == actorId.value
      else true
    }
  }

  /** A match is in the scope, has one of the actions, comes from a user or agent with the actor id, and lies within
      the inclusive time bounds, as far as the query asks for it. */
  lemma MatchesMeaning(q: AuditQuery, e: AuditEntry)
    ensures q.Matches(e) <==>
            && (q.scopeId == None || e.scopeId == q.scopeId)
            && (q.actionTypes == [] || exists i :: 0 <= i < |q.actionTypes| && q.actionTypes[i] == e.action)
            && (q.actorId == None || e.actor == User(q.actorId.value) || e.actor == Agent(q.actorId.value))
            && (q.since == None || q.since.value <= e.timestamp)
            && (q.until == None || e.timestamp <= q.until.value)
    ensures q.Matches(e) <==> q.MatchesIndexed(e) && (q.since.Some? ==> q.since.value <= e.timestamp)
                              && (q.until.Some? ==> e.timestamp <= q.until.value)
  {
    assert e.action in q.actionTypes <==> exists i :: 0 <= i < |q.actionTypes| && q.actionTypes[i] == e.action;
  }

  /** The reference semantics of a query: filter every entry, in order. */
  function Scan(entries: seq<AuditEntry>, q: AuditQuery): seq<AuditEntry> {
    if entries == [] then []
    else
      var front, last := Scan(entries[..|entries| - 1], q), entries[|entries| - 1];
      if q.Matches(last) then front + [last] else front
  }

  // ---------------------------------------------------------------- indexes

  type Index<K(==)> = map<K, seq<nat>>

  function Positions<K>(index: Index<K>, key: K): seq<nat> {
    if key in index then index[key] else []
  }

  function PushPosition<K>(index: Index<K>, key: Option<K>, position: nat): Index<K> {
    if key.Some? then index[key.value := Positions(index, key.value) + [position]] else index
  }

  /** The index that pushing the optional keys one by one builds. */
  function IndexOf<K>(keys: seq<Option<K>>): Index<K> {
    if keys == [] then map[]
    else PushPosition(IndexOf(keys[..|keys| - 1]), keys[|keys| - 1], |keys| - 1)
  }

  function LastPositions(ids: seq<EntryId>): map<EntryId, nat> {
    if ids == [] then map[]
    else LastPositions(ids[..|ids| - 1])[ids[|ids| - 1] := |ids| - 1]
  }

  function ActorKey(a: Actor): Option<Uuid> {
    if a.System? then None else Some(a.id)
  }

  function ScopeKeys(entries: seq<AuditEntry>): seq<Option<ScopeId>> {
    seq(|entries|, i requires 0 <= i < |entries| => entries[i].scopeId)
  }

  function ActionKeys(entries: seq<AuditEntry>): seq<Option<ActionType>> {
    seq(|entries|, i requires 0 <= i < |entries| => Some(entries[i].action))
  }

  function ActorKeys(entries: seq<AuditEntry>): seq<Option<Uuid>> {
    seq(|entries|, i requires 0 <= i < |entries| => ActorKey(entries[i].actor))
  }

  function EntryIds(entries: seq<AuditEntry>): seq<EntryId> {
    seq(|entries|, i requires 0 <= i < |entries| => entries[i].id)
  }

  /** The four index maps of a log. */
  datatype Indexes = Indexes(
    scope: Index<ScopeId>, action: Index<ActionType>, actor: Index<Uuid>, id: map<EntryId, nat>)

  const NO_INDEXES := Indexes(map[], map[], map[], map[])

  /** `index_entry_into`. */
  function IndexEntry(x: Indexes, e: AuditEntry, position: nat): Indexes {
    Indexes(PushPosition(x.scope, e.scopeId, position), PushPosition(x.action, Some(e.action), position),
            PushPosition(x.actor, ActorKey(e.actor), position), x.id[e.id := position])
  }

  ghost function IndexesOf(entries: seq<AuditEntry>): Indexes {
    Indexes(IndexOf(ScopeKeys(entries)), IndexOf(ActionKeys(entries)), IndexOf(ActorKeys(entries)),
        LastPositions(EntryIds(entries)))
  }

  lemma IndexNext(entries: seq<AuditEntry>, e: AuditEntry)
    ensures IndexesOf(entries + [e]) == IndexEntry(IndexesOf(entries), e, |entries|)
  {
    assert ScopeKeys(entries + [e]) == ScopeKeys(entries) + [e.scopeId];
    assert ActionKeys(entries + [e]) == ActionKeys(entries) + [Some(e.action)];
    assert ActorKeys(entries + [e]) == ActorKeys(entries) + [ActorKey(e.actor)];
    assert EntryIds(entries + [e]) == EntryIds(entries) + [e.id];
    SnocIndex(ScopeKeys(entries), e.scopeId);
    SnocIndex(ActionKeys(entries), Some(e.action));
    SnocIndex(ActorKeys(entries), ActorKey(e.actor));
    assert (EntryIds(entries) + [e.id])[..|entries|] == EntryIds(entries);
  }

  lemma SnocIndex<K>(keys: seq<Option<K>>, key: Option<K>)
    ensures IndexOf(keys + [key]) == PushPosition(IndexOf(keys), key, |keys|)
  {
    assert (keys + [key])[..|keys|] == keys;
  }

  ghost predicate Ascends(s: seq<nat>) {
    forall i, j :: 0 <= i < j < |s| ==> s[i] < s[j]
  }

  lemma PushExact<K>(index: Index<K>, pushed: Option<K>, position: nat, key: K)
    ensures Positions(PushPosition(index, pushed, position), key)
         == if pushed == Some(key) then Positions(index, key) + [position] else Positions(index, key)
  {}

  lemma AscendsPush(s: seq<nat>, n: nat)
    requires Ascends(s) && forall p: nat :: p in s ==> p < n
    ensures Ascends(s + [n])
  {
    assert forall i :: 0 <= i < |s| ==> s[i] in s;
  }

  /** An index lists, in ascending order, exactly the positions that carry the key. */
  lemma {:induction false} IndexExact<K>(keys: seq<Option<K>>, key: K)
    ensures Ascends(Positions(IndexOf(keys), key))
    ensures forall i: nat :: i in Positions(IndexOf(keys), key) <==> i < |keys| && keys[i] == Some(key)
  {
    if keys != [] {
      var front, last := keys[..|keys| - 1], keys[|keys| - 1];
      IndexExact(front, key);
      PushExact(IndexOf(front), last, |front|, key);
      assert IndexOf(keys) == PushPosition(IndexOf(front), last, |front|);
      hide IndexOf, Ascends, PushPosition, Positions;
      AscendsPush(Positions(IndexOf(front), key), |front|);
      assert forall i: nat :: i < |front| ==> keys[i] == front[i];
    }
  }

  lemma {:induction false} LastPositionExact(ids: seq<EntryId>, id: EntryId)
    ensures id in LastPositions(ids) <==> id in ids
    ensures id in LastPositions(ids) ==>
              var p := LastPositions(ids)[id];
              p < |ids| && ids[p] == id && forall j :: p < j < |ids| ==> ids[j] != id
  {
    if ids != [] {
      var front := ids[..|ids| - 1];
      LastPositionExact(front, id);
      assert ids == front + [ids[|ids| - 1]];
    }
  }

  // ---------------------------------------------------------------- ordered sets of positions

  /** A `BTreeSet` of positions below `n`, in iteration order. */
  function Ascending(s: set<nat>, n: nat): seq<nat> {
    if n == 0 then [] else if n - 1 in s then Ascending(s, n - 1) + [n - 1] else Ascending(s, n - 1)
  }

  function PositionSet(s: seq<nat>): set<nat> {
    set p | p in s
  }

  lemma {:induction false} AscendingExact(s: set<nat>, n: nat)
    ensures Ascends(Ascending(s, n))
    ensures forall p: nat :: p in Ascending(s, n) <==> p in s && p < n
  {
    if n > 0 {
      AscendingExact(s, n - 1);
      var front := Ascending(s, n - 1);
      assert forall i :: 0 <= i < |front| ==> front[i] in front;
    }
  }

  /** The entries at `positions` that satisfy `q`. */
  function Pick(entries: seq<AuditEntry>, positions: seq<nat>, q: AuditQuery): seq<AuditEntry>
    requires forall i :: 0 <= i < |positions| ==> positions[i] < |entries|
  {
    if positions == [] then []
    else
      var front := Pick(entries, positions[..|positions| - 1], q);
      var e := entries[positions[|positions| - 1]];
      if q.Matches(e) then front + [e] else front
  }

  /** Any candidate set that covers the matches gives the same sequence as the full scan. */
  lemma {:induction false} PickIsScan(entries: seq<AuditEntry>, candidates: set<nat>, n: nat, q: AuditQuery)
    requires n <= |entries|
    requires forall i :: 0 <= i < n && q.Matches(entries[i]) ==> i in candidates
    ensures forall i :: 0 <= i < |Ascending(candidates, n)| ==> Ascending(candidates, n)[i] < |entries|
    ensures Pick(entries, Ascending(candidates, n), q) == Scan(entries[..n], q)
  {
    AscendingExact(candidates, n);
    hide AuditQuery.Matches, Pick, Scan;
    if n == 0 {
      NothingToPick(entries, q);
    } else {
      PickIsScan(entries, candidates, n - 1, q);
      ScanNext(entries, n - 1, q);
      if n - 1 in candidates { PickNext(entries, Ascending(candidates, n - 1), n - 1, q); }
    }
  }

  lemma NothingToPick(entries: seq<AuditEntry>, q: AuditQuery)
    ensures Pick(entries, [], q) == [] == Scan(entries[..0], q)
  {}

  lemma PickNext(entries: seq<AuditEntry>, front: seq<nat>, p: nat, q: AuditQuery)
    requires p < |entries| && forall i :: 0 <= i < |front| ==> front[i] < |entries|
    ensures Pick(entries, front + [p], q)
         == Pick(entries, front, q) + if q.Matches(entries[p]) then [entries[p]] else []
  {
    hide AuditQuery.Matches;
    assert (front + [p])[..|front|] == front;
  }

  lemma ScanNext(entries: seq<AuditEntry>, n: nat, q: AuditQuery)
    requires n < |entries|
    ensures Scan(entries[..n + 1], q) == Scan(entries[..n], q) + if q.Matches(entries[n]) then [entries[n]] else []
  {
    hide AuditQuery.Matches;
    assert entries[..n + 1][..n] == entries[..n];
  }

  /** `found` holds the matching entries and no others, in log order: those at `positions`. */
  ghost predicate Filtered(entries: seq<AuditEntry>, q: AuditQuery, found: seq<AuditEntry>, positions: seq<nat>) {
    && Ascends(positions) && |positions| == |found|
    && (forall p: nat :: p in positions <==> p < |entries| && q.Matches(entries[p]))
    && forall i :: 0 <= i < |positions| ==> positions[i] < |entries| && found[i] == entries[positions[i]]
  }

  lemma FilteredNext(front: seq<AuditEntry>, last: AuditEntry, q: AuditQuery, found: seq<AuditEntry>,
                     positions: seq<nat>)
    requires Filtered(front, q, found, positions)
    ensures if q.Matches(last) then Filtered(front + [last], q, found + [last], positions + [|front|])
            else Filtered(front + [last], q, found, positions)
  {
    hide AuditQuery.Matches;
    var entries := front + [last];
    assert forall p: nat :: p < |front| ==> entries[p] == front[p];
    assert entries[|front|] == last;
  }

  /** The scan is the filter. */
  lemma {:induction false} ScanExact(entries: seq<AuditEntry>, q: AuditQuery) returns (positions: seq<nat>)
    ensures Filtered(entries, q, Scan(entries, q), positions)
  {
    if entries == [] {
      positions := [];
    } else {
      hide AuditQuery.Matches, Filtered;
      var front, last := entries[..|entries| - 1], entries[|entries| - 1];
      assert entries == front + [last];
      positions := ScanExact(front, q);
      FilteredNext(front, last, q, Scan(front, q), positions);
      positions := if q.Matches(last) then positions + [|front|] else positions;
    }
  }

  /** The positions whose entry passes every indexed filter of `q`. */
  ghost function Candidates(entries: seq<AuditEntry>, q: AuditQuery): set<nat> {
    set i | 0 <= i < |entries| && q.MatchesIndexed(entries[i])
  }

  /** `sort_by_key(len)`: a stable insertion sort. */
  function InsertByLength(x: seq<nat>, s: seq<seq<nat>>): seq<seq<nat>> {
    if s == [] then [x]
    else if |x| < |s[|s| - 1]| then InsertByLength(x, s[..|s| - 1]) + [s[|s| - 1]]
    else s + [x]
  }

  function SortByLength(s: seq<seq<nat>>): seq<seq<nat>> {
    if s == [] then [] else InsertByLength(s[|s| - 1], SortByLength(s[..|s| - 1]))
  }

  lemma {:induction false} InsertByLengthMembers(x: seq<nat>, s: seq<seq<nat>>)
    ensures multiset(InsertByLength(x, s)) == multiset(s) + multiset{x}
  {
    if s != [] {
      assert s == s[..|s| - 1] + [s[|s| - 1]];
      InsertByLengthMembers(x, s[..|s| - 1]);
    }
  }

  lemma {:induction false} SortByLengthMembers(s: seq<seq<nat>>)
    ensures multiset(SortByLength(s)) == multiset(s)
  {
    if s != [] {
      assert s == s[..|s| - 1] + [s[|s| - 1]];
      SortByLengthMembers(s[..|s| - 1]);
      InsertByLengthMembers(s[|s| - 1], SortByLength(s[..|s| - 1]));
    }
  }

  /** The positions common to all of `sets`. */
  ghost predicate InAll(sets: seq<seq<nat>>, p: nat) {
    forall s :: s in sets ==> p in s
  }

  // ---------------------------------------------------------------- log values

  datatype Log = Log(entries: seq<AuditEntry>, next: nat)

  const EMPTY_LOG := Log([], 0)

  function Bump(n: nat): nat {
    if n < U64_MAX then n + 1 else U64_MAX
  }

  function AppendTo(log: Log, e: AuditEntry): Log {
    Log(log.entries + [e.(sequence := log.next)], Bump(log.next))
  }

  datatype AuditError = NotContiguous | SequenceOverflow | Sqlite | RowMismatch

  function ReplayTo(log: Log, e: AuditEntry): Result<Log, AuditError> {
    if e.sequence != log.next then Err(NotContiguous)
    else Ok(Log(log.entries + [e], Bump(log.next)))
  }

  datatype LogOp = DoAppend(entry: AuditEntry) | DoReplay(entry: AuditEntry)

  function LogStep(log: Log, op: LogOp): Log {
    match op
    case DoAppend(e) => AppendTo(log, e)
    case DoReplay(e) => var r := ReplayTo(log, e); if r.Ok? then r.value else log
  }

  function LogRun(log: Log, ops: seq<LogOp>): Log {
    if ops == [] then log else LogStep(LogRun(log, ops[..|ops| - 1]), ops[|ops| - 1])
  }

  function Capped(n: nat): nat {
    if n < U64_MAX then n else U64_MAX
  }

  /** Sequence numbers count from 0 and stick at the largest counter value. */
  ghost predicate Stamped(log: Log) {
    && (forall i :: 0 <= i < |log.entries| ==> log.entries[i].sequence == Capped(i))
    && log.next == Capped(|log.entries|)
  }

  /** An append keeps the log and adds the entry, unchanged but for its number; the counter goes up by one and sticks
      at the largest 64-bit number. */
  lemma AppendExact(log: Log, e: AuditEntry)
    ensures var r := AppendTo(log, e);
            && |r.entries| == |log.entries| + 1 && log.entries <= r.entries
            && r.entries[|log.entries|] == AuditEntry(id := e.id, sequence := log.next, timestamp := e.timestamp,
                                                      actor := e.actor, action := e.action, target := e.target,
                                                      scopeId := e.scopeId, details := e.details)
            && r.next == if log.next < 0xFFFF_FFFF_FFFF_FFFF then log.next + 1 else 0xFFFF_FFFF_FFFF_FFFF
  {}

  /** A replay takes exactly the entry with the next number, as it is. */
  lemma ReplayExact(log: Log, e: AuditEntry)
    ensures ReplayTo(log, e).Ok? <==> e.sequence == log.next
    ensures ReplayTo(log, e).Err? ==> ReplayTo(log, e).error == NotContiguous
    ensures ReplayTo(log, e).Ok? ==> ReplayTo(log, e).value == AppendTo(log, e) && e in ReplayTo(log, e).value.entries
  {
    assert e.sequence == log.next ==> (log.entries + [e])[|log.entries|] == e;
  }

  /** Every run of appends and replays only extends the log, and numbers it by position. */
  lemma {:induction false} LogRunStamped(log: Log, ops: seq<LogOp>)
    requires Stamped(log)
    ensures log.entries <= LogRun(log, ops).entries && Stamped(LogRun(log, ops))
  {
    if ops != [] { LogRunStamped(log, ops[..|ops| - 1]); }
  }

  /** The counter saturates, so sequence numbers are strictly monotonic exactly up to 2^64 entries. */
  lemma StrictlyMonotonicIff(log: Log)
    requires Stamped(log)
    ensures (forall i, j :: 0 <= i < j < |log.entries| ==> log.entries[i].sequence < log.entries[j].sequence)
       <==> |log.entries| <= U64_MAX + 1
  {
    if |log.entries| > U64_MAX + 1 {
      assert log.entries[U64_MAX].sequence == log.entries[U64_MAX + 1].sequence;
    }
  }

  lemma {:induction false} AppendsCount(log: Log, ops: seq<LogOp>)
    requires forall i :: 0 <= i < |ops| ==> ops[i].DoAppend?
    ensures |LogRun(log, ops).entries| == |log.entries| + |ops|
  {
    if ops != [] { AppendsCount(log, ops[..|ops| - 1]); }
  }

  /** One append past 2^64 entries repeats a sequence number. */
  lemma CounterRepeats(e: AuditEntry)
    ensures var entries := LogRun(EMPTY_LOG, seq(U64_MAX + 2, _ => DoAppend(e))).entries;
            |entries| == U64_MAX + 2 && entries[U64_MAX].sequence == entries[U64_MAX + 1].sequence
  {
    hide LogRun;
    var ops := seq(U64_MAX + 2, _ => DoAppend(e));
    AppendsCount(EMPTY_LOG, ops);
    LogRunStamped(EMPTY_LOG, ops);
  }

  /** Deserialisation trusts the wire's entries and counter; what an append leaves is numbered right exactly when the
      wire was. */
  lemma TrustedCounterIff(wire: Log, e: AuditEntry)
    ensures Stamped(AppendTo(wire, e)) <==> Stamped(wire)
  {
    var log := AppendTo(wire, e);
    assert log.entries[|wire.entries|].sequence == wire.next;
    assert forall i :: 0 <= i < |wire.entries| ==> log.entries[i] == wire.entries[i];
  }

  /** An empty wire whose counter says 5 numbers its first entry 5. */
  lemma WrongCounterTrusted(e: AuditEntry)
    ensures AppendTo(Log([], 5), e).entries == [e.(sequence := 5)] && !Stamped(AppendTo(Log([], 5), e))
  {
    TrustedCounterIff(Log([], 5), e);
  }

  // ---------------------------------------------------------------- the object

  class AuditLog {
    var entries: seq<AuditEntry>
    var nextSequence: nat
    var indexes: Indexes

    ghost function View(): Log
      reads this
    {
      Log(entries, nextSequence)
    }

    /** The secondary indexes are the ones that rebuilding from the entries gives. */
    ghost predicate Valid()
      reads this
    {
      indexes == IndexesOf(entries)
    }

    constructor ()
      ensures Valid() && View() == EMPTY_LOG
    {
      entries, nextSequence, indexes := [], 0, NO_INDEXES;
    }

    /** Deserialisation: the wire carries the entries and the counter; the indexes are rebuilt. */
    constructor Deserialize(wire: Log)
      ensures Valid() && View() == wire
    {
      entries, nextSequence, indexes := wire.entries, wire.next, NO_INDEXES;
      new;
      RebuildIndexes();
    }

    method RebuildIndexes()
      modifies this`indexes
      ensures Valid()
    {
      indexes := NO_INDEXES;
      for i := 0 to |entries|
        invariant indexes == IndexesOf(entries[..i])
      {
        IndexNext(entries[..i], entries[i]);
        assert entries[..i + 1] == entries[..i] + [entries[i]];
        indexes := IndexEntry(indexes, entries[i], i);
      }
      assert entries[..|entries|] == entries;
    }

    method Append(entry: AuditEntry) returns (id: EntryId)
      requires Valid()
      modifies this
      ensures Valid() && View() == AppendTo(old(View()), entry) && id == entry.id
    {
      var stamped := entry.(sequence := nextSequence);
      nextSequence := Bump(nextSequence);
      IndexNext(entries, stamped);
      indexes := IndexEntry(indexes, stamped, |entries|);
      entries := entries + [stamped];
      return entry.id;
    }

    method ReplayPersisted(entry: AuditEntry) returns (r: Result<(), AuditError>)
      requires Valid()
      modifies this
      ensures Valid()
      ensures match ReplayTo(old(View()), entry)
              case Ok(log) => r == Ok(()) && View() == log
              case Err(e) => r == Err(e) && View() == old(View())
    {
      if entry.sequence != nextSequence {
        return Err(NotContiguous);
      }
      nextSequence := Bump(nextSequence);
      IndexNext(entries, entry);
      indexes := IndexEntry(indexes, entry, |entries|);
      entries := entries + [entry];
      return Ok(());
    }

    /** The latest entry with the id, if any. */
    method Get(id: EntryId) returns (r: Option<AuditEntry>)
      requires Valid()
      ensures r.None? <==> forall e :: e in entries ==> e.id != id
      ensures r.Some? ==> exists p :: 0 <= p < |entries| && entries[p] == r.value && r.value.id == id
                                      && forall j :: p < j < |entries| ==> entries[j].id != id
    {
      LastPositionExact(EntryIds(entries), id);
      if id in indexes.id {
        var p := indexes.id[id];
        assert entries[p].id == EntryIds(entries)[p];
        assert forall j :: p < j < |entries| ==> entries[j].id == EntryIds(entries)[j];
        return Some(entries[p]);
      }
      assert forall j :: 0 <= j < |entries| ==> EntryIds(entries)[j] == entries[j].id;
      return None;
    }

    method IntersectWith(seed: seq<nat>, extra: seq<seq<nat>>, actorId: Option<Uuid>) returns (r: seq<nat>)
      requires forall p: nat :: p in seed ==> p < |entries|
      ensures Ascends(r)
      ensures forall p: nat :: p in r <==>
              p in seed && InAll(extra, p) && (actorId.Some? ==> p in Positions(indexes.actor, actorId.value))
    {
      var acc := PositionSet(seed);
      for i := 0 to |extra|
        invariant forall p: nat :: p in acc <==> p in seed && InAll(extra[..i], p)
      {
        InAllNext(extra, i);
        acc := acc * PositionSet(extra[i]);
        assert forall p: nat :: p in acc <==> p in seed && InAll(extra[..i + 1], p);
        if acc == {} {
          InAllShrinks(extra, i + 1);
          return [];
        }
      }
      assert extra[..|extra|] == extra;
      if actorId.Some? {
        if actorId.value in indexes.actor {
          acc := acc * PositionSet(indexes.actor[actorId.value]);
        } else {
          return [];
        }
      }
      AscendingExact(acc, |entries|);
      return Ascending(acc, |entries|);
    }

    /** The positions of every requested action type. */
    method ActionUnion(actions: seq<ActionType>) returns (union: set<nat>)
      requires Valid()
      ensures forall p: nat :: p in union <==> p < |entries| && entries[p].action in actions
    {
      hide IndexOf;
      union := {};
      for i := 0 to |actions|
        invariant forall p: nat :: p in union <==> p < |entries| && entries[p].action in actions[..i]
      {
        KeysAt(entries, None, Some(actions[i]), None);
        assert actions[..i + 1] == actions[..i] + [actions[i]];
        if actions[i] in indexes.action {
          union := union + PositionSet(indexes.action[actions[i]]);
        }
      }
      assert actions[..|actions|] == actions;
    }

    /** The planner: `None` when no filter is indexed, else exactly the positions that pass the indexed filters. */
    method CandidatePositions(q: AuditQuery) returns (r: Option<seq<nat>>)
      requires Valid()
      ensures r.None? <==> q.scopeId.None? && q.actionTypes == [] && q.actorId.None?
      ensures r.Some? ==> Ascends(r.value) && forall p: nat :: p in r.value <==> p in Candidates(entries, q)
    {
      hide IndexOf, Ascends, SortByLength;
      var sets: seq<seq<nat>> := [];
      KeysAt(entries, q.scopeId, None, q.actorId);
      if q.scopeId.Some? {
        sets := sets + [Positions(indexes.scope, q.scopeId.value)];
      }
      if q.actionTypes != [] {
        var union := ActionUnion(q.actionTypes);
        AscendingExact(union, |entries|);
        var owned := Ascending(union, |entries|);
        var common := IntersectWith(owned, sets, q.actorId);
        return Some(common);
      }
      if q.actorId.Some? {
        sets := sets + [Positions(indexes.actor, q.actorId.value)];
      }
      if sets == [] {
        return None;
      }
      assert forall p: nat :: InAll(sets, p) <==>
          && (q.scopeId.Some? ==> p in Positions(indexes.scope, q.scopeId.value))
          && (q.actorId.Some? ==> p in Positions(indexes.actor, q.actorId.value));
      var common := IntersectSmallestFirst(sets, |entries|);
      return Some(common);
    }

    /** Run a query through the planner. */
    method Query(q: AuditQuery) returns (r: seq<AuditEntry>)
      requires Valid()
      ensures r == Scan(entries, q)
    {
      var candidates := CandidatePositions(q);
      r := [];
      if candidates.None? {
        for i := 0 to |entries|
          invariant r == Scan(entries[..i], q)
        {
          assert entries[..i + 1][..i] == entries[..i];
          if q.Matches(entries[i]) { r := r + [entries[i]]; }
        }
        assert entries[..|entries|] == entries;
        return;
      }
      var positions := candidates.value;
      for i := 0 to |positions|
        invariant forall j :: 0 <= j < i ==> positions[j] < |entries|
        invariant r == Pick(entries, positions[..i], q)
      {
        assert positions[i] in positions;
        assert positions[..i + 1][..i] == positions[..i];
        assert positions[..i + 1] == positions[..i] + [positions[i]];
        var entry := entries[positions[i]];
        if q.Matches(entry) { r := r + [entry]; }
      }
      assert positions[..|positions|] == positions;
      CandidatesInOrder(entries, q, positions);
    }
  }

  /** Serialising and deserialising gives back every field, indexes included. */
  method RoundTrip(log: AuditLog) returns (copy: AuditLog)
    requires log.Valid()
    ensures fresh(copy) && copy.Valid()
    ensures copy.entries == log.entries && copy.nextSequence == log.nextSequence && copy.indexes == log.indexes
  {
    var wire := Log(log.entries, log.nextSequence);
    copy := new AuditLog.Deserialize(wire);
  }

  /** Intersect from the shortest list on, stopping once nothing is left. */
  method IntersectSmallestFirst(sets: seq<seq<nat>>, n: nat) returns (r: seq<nat>)
    requires sets != [] && forall s :: s in sets ==> forall p: nat :: p in s ==> p < n
    ensures Ascends(r)
    ensures forall p: nat :: p in r <==> InAll(sets, p)
  {
    hide SortByLength;
    SortByLengthMembers(sets);
    var ordered := SortByLength(sets);
    SameMembers(ordered, sets);
    var acc := PositionSet(ordered[0]);
    var i := 1;
    InAllNext(ordered, 0);
    while i < |ordered|
      invariant 1 <= i <= |ordered|
      invariant forall p: nat :: p in acc <==> InAll(ordered[..i], p)
    {
      InAllNext(ordered, i);
      acc := acc * PositionSet(ordered[i]);
      i := i + 1;
      if acc == {} {
        break;
      }
    }
    InAllShrinks(ordered, i);
    assert ordered[..|ordered|] == ordered;
    assert forall p: nat :: InAll(ordered, p) <==> InAll(sets, p);
    assert ordered[0] in sets;
    assert forall p: nat :: p in acc <==> InAll(ordered, p);
    AscendingExact(acc, n);
    r := Ascending(acc, n);
  }

  lemma SameMembers(a: seq<seq<nat>>, b: seq<seq<nat>>)
    requires multiset(a) == multiset(b)
    ensures |a| == |b| && forall s :: s in a <==> s in b
  {
    assert |a| == |multiset(a)| && |b| == |multiset(b)|;
    assert forall s :: (s in a <==> s in multiset(a)) && (s in b <==> s in multiset(b));
  }

  /** What the three position indexes hold, read off the entries. */
  lemma KeysAt(entries: seq<AuditEntry>, scope: Option<ScopeId>, action: Option<ActionType>, actor: Option<Uuid>)
    ensures scope.Some? ==> forall p: nat :: p in Positions(IndexesOf(entries).scope, scope.value) <==>
              p < |entries| && entries[p].scopeId == scope
    ensures action.Some? ==> forall p: nat :: p in Positions(IndexesOf(entries).action, action.value) <==>
              p < |entries| && entries[p].action == action.value
    ensures actor.Some? ==> forall p: nat :: p in Positions(IndexesOf(entries).actor, actor.value) <==>
              p < |entries| && ActorKey(entries[p].actor) == actor
  {
    hide IndexOf, Ascends;
    if scope.Some? { IndexExact(ScopeKeys(entries), scope.value); }
    if action.Some? { IndexExact(ActionKeys(entries), action.value); }
    if actor.Some? { IndexExact(ActorKeys(entries), actor.value); }
  }

  lemma InAllNext(sets: seq<seq<nat>>, i: nat)
    requires i < |sets|
    ensures forall p: nat :: InAll(sets[..i + 1], p) <==> InAll(sets[..i], p) && p in sets[i]
  {
    assert sets[..i + 1] == sets[..i] + [sets[i]];
  }

  lemma InAllShrinks(sets: seq<seq<nat>>, i: nat)
    requires i <= |sets|
    ensures forall p: nat :: InAll(sets, p) ==> InAll(sets[..i], p)
  {}

  /** The largest possible position, if listed, is listed last. */
  lemma AscendsLast(s: seq<nat>, n: nat) returns (front: seq<nat>)
    requires Ascends(s) && n > 0 && n - 1 in s && forall p: nat :: p in s ==> p < n
    ensures s == front + [n - 1] && Ascends(front) && forall p: nat :: p in front ==> p < n - 1
  {
    var i :| 0 <= i < |s| && s[i] == n - 1;
    assert s[|s| - 1] in s;
    assert i == |s| - 1;
    front := s[..i];
    forall p: nat | p in front ensures p < n - 1 {
      var j :| 0 <= j < |front| && front[j] == p;
      assert s[j] < s[i];
    }
  }

  /** Positions in ascending order are determined by their set. */
  lemma {:induction false} AscendsUnique(s: seq<nat>, n: nat)
    requires Ascends(s) && forall p: nat :: p in s ==> p < n
    ensures s == Ascending(PositionSet(s), n)
    decreases n
  {
    if n == 0 {
      HasMember(s);
    } else if n - 1 in s {
      var front := AscendsLast(s, n);
      hide Ascends;
      AscendsUnique(front, n - 1);
      AscendingAgree(PositionSet(s), PositionSet(front), n - 1);
    } else {
      AscendsUnique(s, n - 1);
    }
  }

  lemma {:induction false} AscendingAgree(a: set<nat>, b: set<nat>, n: nat)
    requires forall p: nat :: p < n ==> (p in a <==> p in b)
    ensures Ascending(a, n) == Ascending(b, n)
  {
    if n > 0 { AscendingAgree(a, b, n - 1); }
  }

  lemma CandidatesInOrder(entries: seq<AuditEntry>, q: AuditQuery, positions: seq<nat>)
    requires Ascends(positions) && forall p: nat :: p in positions <==> p in Candidates(entries, q)
    ensures forall i :: 0 <= i < |positions| ==> positions[i] < |entries|
    ensures Pick(entries, positions, q) == Scan(entries, q)
  {
    AscendsUnique(positions, |entries|);
    PickIsScan(entries, PositionSet(positions), |entries|, q);
    assert entries[..|entries|] == entries;
  }
}
