/** Projecting source-system permission deltas onto the relation-tuple store. */
module AclSync {
  import opened Basics

  datatype ObjectType =
    | Tenant | Domain | Channel | User | Group | Device | Concept | Summary | Workflow | ExportProfile | Agent
  type SubjectType = ObjectType
  datatype Relation = Owner | Admin | Editor | Member | Viewer | Synthesizer | Proposer

  datatype ObjectRef = ObjectRef(objectType: ObjectType, objectId: Uuid)
  datatype SubjectRef = SubjectRef(subjectType: SubjectType, subjectId: Uuid, subjectRelation: Option<Relation>)
  datatype RelationTuple = RelationTuple(object_: ObjectRef, relation: Relation, subject: SubjectRef)

  type Tuples = set<RelationTuple>
  type SourceUserId = string
  type SourceDocumentId = string

  datatype Level = Read | Write | Administer

  datatype PermissionDelta =
    | Grant(user: SourceUserId, document: SourceDocumentId, level: Level)
    | Revoke(user: SourceUserId, document: SourceDocumentId)

  /** A resolved object and direct subject. */
  datatype Pair = Pair(object_: ObjectRef, subject: SubjectRef)

  datatype PermissionMapping = PermissionMapping(
    objectType: ObjectType, subjectType: SubjectType,
    users: map<SourceUserId, Uuid>, documents: map<SourceDocumentId, Uuid>, levels: map<Level, Relation>)
  {
    function RelationFor(level: Level): Relation {
      if level in levels then levels[level] else Viewer
    }

    function PairOf(d: PermissionDelta): Option<Pair> {
      if d.document in documents && d.user in users then
        Some(Pair(ObjectRef(objectType, documents[d.document]), SubjectRef(subjectType, users[d.user], None)))
      else None
    }
  }

  datatype Report = Report(
    inserted: nat, updated: nat, removed: nat, unknownUsers: seq<SourceUserId>, unknownDocuments: seq<SourceDocumentId>)

  const EMPTY_REPORT := Report(0, 0, 0, [], [])

  datatype Progress = Progress(tuples: Tuples, report: Report)

  function Target(p: Pair, r: Relation): RelationTuple {
    RelationTuple(p.object_, r, p.subject)
  }

  predicate Concerns(t: RelationTuple, p: Pair) {
    t.object_ == p.object_ && t.subject == p.subject
  }

  /** The pair that a tuple relates. */
  function PairIn(t: RelationTuple): Pair {
    Pair(t.object_, t.subject)
  }

  predicate IsDirect(t: RelationTuple) {
    t.subject.subjectRelation.None?
  }

  /** The tuples that already relate the pair. */
  function Existing(tuples: Tuples, p: Pair): Tuples {
    set t | t in tuples && Concerns(t, p)
  }

  function ApplyDelta(m: PermissionMapping, s: Progress, d: PermissionDelta): Progress {
    var rep := s.report;
    if d.document !in m.documents then s.(report := rep.(unknownDocuments := rep.unknownDocuments + [d.document]))
    else if d.user !in m.users then s.(report := rep.(unknownUsers := rep.unknownUsers + [d.user]))
    else
      var pair := m.PairOf(d).value;
      var existing := Existing(s.tuples, pair);
      if d.Revoke? then Progress(s.tuples - existing, rep.(removed := rep.removed + |existing|))
      else
        var target := Target(pair, m.RelationFor(d.level));
        if target in s.tuples then s
        else if existing == {} then Progress(s.tuples + {target}, rep.(inserted := rep.inserted + 1))
        else
          Progress(s.tuples - existing + {target},
                   rep.(removed := rep.removed + |existing|, updated := rep.updated + 1))
  }

  function ApplyAll(m: PermissionMapping, s: Progress, deltas: seq<PermissionDelta>): Progress
    decreases |deltas|
  {
    if deltas == [] then s else ApplyAll(m, ApplyDelta(m, s, deltas[0]), deltas[1..])
  }

  // ---------------------------------------------------------------- last delta wins

  /** At most one direct tuple per object and subject. */
  ghost predicate Single(tuples: Tuples) {
    forall t, u :: t in tuples && u in tuples && IsDirect(t) && Concerns(u, PairIn(t)) ==> t == u
  }

  /** The last delta that resolves to the pair. */
  function LastFor(m: PermissionMapping, deltas: seq<PermissionDelta>, p: Pair): Option<PermissionDelta> {
    if deltas == [] then None
    else
      var later := LastFor(m, deltas[1..], p);
      if later.Some? then later else if m.PairOf(deltas[0]) == Some(p) then Some(deltas[0]) else None
  }

  /** Whether the store should hold `t` after the deltas. */
  ghost predicate Decided(m: PermissionMapping, tuples: Tuples, deltas: seq<PermissionDelta>, t: RelationTuple) {
    match LastFor(m, deltas, PairIn(t))
    case None => t in tuples
    case Some(Grant(_, _, level)) => t.relation == m.RelationFor(level)
    case Some(Revoke(_, _)) => false
  }

  lemma PairsAreDirect(m: PermissionMapping, d: PermissionDelta)
    ensures m.PairOf(d).Some? ==> m.PairOf(d).value.subject.subjectRelation.None?
  {}

  /** One delta settles its own pair and touches nothing else. */
  lemma ApplyDeltaPointwise(m: PermissionMapping, s: Progress, d: PermissionDelta, t: RelationTuple)
    requires Single(s.tuples)
    ensures Single(ApplyDelta(m, s, d).tuples)
    ensures t in ApplyDelta(m, s, d).tuples <==>
            if m.PairOf(d) == Some(PairIn(t))
            then d.Grant? && t.relation == m.RelationFor(d.level)
            else t in s.tuples
  {
    PairsAreDirect(m, d);
    if m.PairOf(d).Some? && d.Grant? {
      var target := Target(m.PairOf(d).value, m.RelationFor(d.level));
      assert Concerns(target, m.PairOf(d).value);
    }
  }

  /** Over any list of deltas each resolved pair ends as its last delta says, and every other tuple is untouched. */
  lemma {:induction false} LastDeltaWins(m: PermissionMapping, s: Progress, deltas: seq<PermissionDelta>,
                                         t: RelationTuple)
    requires Single(s.tuples)
    ensures Single(ApplyAll(m, s, deltas).tuples)
    ensures t in ApplyAll(m, s, deltas).tuples <==> Decided(m, s.tuples, deltas, t)
    decreases |deltas|
  {
    if deltas != [] {
      hide ApplyDelta, Single;
      ApplyDeltaPointwise(m, s, deltas[0], t);
      LastDeltaWins(m, ApplyDelta(m, s, deltas[0]), deltas[1..], t);
    }
  }

  /** The delta's document and user are mapped, and `t` is a direct tuple of the object and the subject they map to. */
  ghost predicate Names(m: PermissionMapping, d: PermissionDelta, t: RelationTuple) {
    && d.document in m.documents
    && t.object_.objectId == m.documents[d.document] && t.object_.objectType == m.objectType
    && d.user in m.users && t.subject.subjectId == m.users[d.user] && t.subject.subjectType == m.subjectType
    && t.subject.subjectRelation == None
  }

  /** No delta after the `i`-th names `t`. */
  ghost predicate NamedLast(m: PermissionMapping, deltas: seq<PermissionDelta>, t: RelationTuple, i: int) {
    && 0 <= i < |deltas| && Names(m, deltas[i], t)
    && forall j :: i < j < |deltas| ==> !Names(m, deltas[j], t)
  }

  lemma {:induction false} LastForNamed(m: PermissionMapping, deltas: seq<PermissionDelta>, t: RelationTuple)
    ensures match LastFor(m, deltas, PairIn(t))
            case None => forall i :: 0 <= i < |deltas| ==> !Names(m, deltas[i], t)
            case Some(d) => forall i :: NamedLast(m, deltas, t, i) ==> deltas[i] == d
    ensures LastFor(m, deltas, PairIn(t)).Some? ==> exists i :: 0 <= i < |deltas| && Names(m, deltas[i], t)
    decreases |deltas|
  {
    if deltas != [] {
      var rest := deltas[1..];
      LastForNamed(m, rest, t);
      assert Names(m, deltas[0], t) <==> m.PairOf(deltas[0]) == Some(PairIn(t));
      hide Names;
      assert forall i :: 0 < i < |deltas| ==> deltas[i] == rest[i - 1];
      if i :| 0 <= i < |rest| && Names(m, rest[i], t) { assert Names(m, deltas[i + 1], t); }
      forall i | NamedLast(m, deltas, t, i) && i > 0 ensures NamedLast(m, rest, t, i - 1) {
        assert forall j :: i - 1 < j < |rest| ==> rest[j] == deltas[j + 1];
      }
    }
  }

  /** Over any list of deltas, in the mapping's own terms: a direct tuple that a delta names stands afterwards
      exactly when the last such delta grants it, at the relation of its level or else as viewer; any other tuple is
      as before. */
  lemma SyncedExactly(m: PermissionMapping, s: Progress, deltas: seq<PermissionDelta>, t: RelationTuple)
    requires Single(s.tuples)
    ensures (forall i :: 0 <= i < |deltas| ==> !Names(m, deltas[i], t)) ==>
              (t in ApplyAll(m, s, deltas).tuples <==> t in s.tuples)
    ensures forall i :: NamedLast(m, deltas, t, i) ==>
              (t in ApplyAll(m, s, deltas).tuples <==>
               && deltas[i].Grant?
               && t.relation == if deltas[i].level in m.levels then m.levels[deltas[i].level] else Viewer)
  {
    LastDeltaWins(m, s, deltas, t);
    LastForNamed(m, deltas, t);
    hide ApplyAll, LastFor, Names;
  }

  /** The counters of one delta: removals and arrivals are what really left and joined the store; an arrival is an
      insertion when the pair had no tuple, else an update. */
  lemma CountsExact(m: PermissionMapping, s: Progress, d: PermissionDelta)
    ensures var r := ApplyDelta(m, s, d);
            && r.report.removed == s.report.removed + |s.tuples - r.tuples|
            && r.report.inserted + r.report.updated
               == s.report.inserted + s.report.updated + |r.tuples - s.tuples|
            && (r.report.inserted != s.report.inserted <==>
                  d.Grant? && r.tuples != s.tuples && s.tuples - r.tuples == {})
            && (r.report.updated != s.report.updated <==> d.Grant? && s.tuples - r.tuples != {})
  {
    assert s.tuples - s.tuples == {};
    if m.PairOf(d).Some? {
      var pair := m.PairOf(d).value;
      var existing := Existing(s.tuples, pair);
      if d.Grant? {
        ReplacedBy(s.tuples, pair, Target(pair, m.RelationFor(d.level)));
      } else {
        assert (s.tuples - existing) - s.tuples == {};
        assert s.tuples - (s.tuples - existing) == existing;
      }
      hide Existing;
    }
  }

  /** What leaves and what joins when `target` takes the place of its pair's tuples. */
  lemma ReplacedBy(tuples: Tuples, pair: Pair, target: RelationTuple)
    ensures var existing := Existing(tuples, pair);
            target !in tuples && Concerns(target, pair) ==>
              && (tuples - existing + {target}) - tuples == {target}
              && tuples - (tuples - existing + {target}) == existing
              && (tuples + {target}) - tuples == {target} && tuples - (tuples + {target}) == {}
  {}

  /** Tuples with a userset subject, and tuples of pairs no delta resolves to, are never touched. */
  lemma {:induction false} OthersUntouched(m: PermissionMapping, s: Progress, deltas: seq<PermissionDelta>,
                                           t: RelationTuple)
    requires !IsDirect(t) || LastFor(m, deltas, PairIn(t)).None?
    ensures t in ApplyAll(m, s, deltas).tuples <==> t in s.tuples
    decreases |deltas|
  {
    if deltas != [] {
      PairsAreDirect(m, deltas[0]);
      OthersUntouched(m, ApplyDelta(m, s, deltas[0]), deltas[1..], t);
    }
  }

  /** Keep, of every resolved pair, only the last delta. */
  function OnlyLast(m: PermissionMapping, deltas: seq<PermissionDelta>): seq<PermissionDelta> {
    if deltas == [] then []
    else
      var rest := OnlyLast(m, deltas[1..]);
      var pair := m.PairOf(deltas[0]);
      if pair.None? || LastFor(m, deltas[1..], pair.value).Some? then rest else [deltas[0]] + rest
  }

  lemma {:induction false} OnlyLastSameLast(m: PermissionMapping, deltas: seq<PermissionDelta>, p: Pair)
    ensures LastFor(m, OnlyLast(m, deltas), p) == LastFor(m, deltas, p)
    decreases |deltas|
  {
    if deltas != [] {
      var rest := OnlyLast(m, deltas[1..]);
      OnlyLastSameLast(m, deltas[1..], p);
      assert ([deltas[0]] + rest)[1..] == rest;
    }
  }

  /** Applying only the last delta of each pair gives the same store. */
  lemma OnlyLastSameStore(m: PermissionMapping, s: Progress, deltas: seq<PermissionDelta>)
    requires Single(s.tuples)
    ensures ApplyAll(m, s, OnlyLast(m, deltas)).tuples == ApplyAll(m, s, deltas).tuples
  {
    hide Single, ApplyAll, OnlyLast, LastFor;
    forall t ensures t in ApplyAll(m, s, OnlyLast(m, deltas)).tuples <==> t in ApplyAll(m, s, deltas).tuples {
      LastDeltaWins(m, s, deltas, t);
      LastDeltaWins(m, s, OnlyLast(m, deltas), t);
      OnlyLastSameLast(m, deltas, PairIn(t));
    }
  }

  /** Conservation: the store grows by what was inserted or updated and shrinks by what was removed. */
  lemma {:induction false} SizeConserved(m: PermissionMapping, s: Progress, deltas: seq<PermissionDelta>)
    ensures var r := ApplyAll(m, s, deltas);
            |r.tuples| + r.report.removed + s.report.inserted + s.report.updated
            == |s.tuples| + s.report.removed + r.report.inserted + r.report.updated
    decreases |deltas|
  {
    if deltas != [] {
      DeltaConserved(m, s, deltas[0]);
      SizeConserved(m, ApplyDelta(m, s, deltas[0]), deltas[1..]);
    }
  }

  function UnknownDocuments(m: PermissionMapping, deltas: seq<PermissionDelta>): seq<SourceDocumentId> {
    if deltas == [] then []
    else (if deltas[0].document in m.documents then [] else [deltas[0].document]) + UnknownDocuments(m, deltas[1..])
  }

  /** A delta whose document is unknown is not asked about its user. */
  function UnknownUsers(m: PermissionMapping, deltas: seq<PermissionDelta>): seq<SourceUserId> {
    if deltas == [] then []
    else
      (if deltas[0].document in m.documents && deltas[0].user !in m.users then [deltas[0].user] else [])
      + UnknownUsers(m, deltas[1..])
  }

  /** Every unresolved id is reported, in order and once per delta; nothing else is. */
  lemma {:induction false} UnknownReported(m: PermissionMapping, s: Progress, deltas: seq<PermissionDelta>)
    ensures ApplyAll(m, s, deltas).report.unknownDocuments == s.report.unknownDocuments + UnknownDocuments(m, deltas)
    ensures ApplyAll(m, s, deltas).report.unknownUsers == s.report.unknownUsers + UnknownUsers(m, deltas)
    decreases |deltas|
  {
    if deltas != [] { UnknownReported(m, ApplyDelta(m, s, deltas[0]), deltas[1..]); }
  }

  lemma DeltaConserved(m: PermissionMapping, s: Progress, d: PermissionDelta)
    ensures var r := ApplyDelta(m, s, d);
            |r.tuples| + r.report.removed + s.report.inserted + s.report.updated
            == |s.tuples| + s.report.removed + r.report.inserted + r.report.updated
  {
    if m.PairOf(d).Some? {
      var existing := Existing(s.tuples, m.PairOf(d).value);
      assert |s.tuples - existing| + |existing| == |s.tuples| by {
        assert s.tuples == (s.tuples - existing) + existing;
      }
    }
  }

  /** A grant leaves exactly its own tuple for the pair, unless that tuple was already there beside another one. */
  lemma GrantExactIff(m: PermissionMapping, s: Progress, d: PermissionDelta)
    requires d.Grant? && m.PairOf(d).Some?
    ensures var pair := m.PairOf(d).value;
            var target := Target(pair, m.RelationFor(d.level));
            Existing(ApplyDelta(m, s, d).tuples, pair) == {target} <==>
            !(target in s.tuples && exists u :: u in s.tuples && u != target && Concerns(u, pair))
  {
    var pair := m.PairOf(d).value;
    var target := Target(pair, m.RelationFor(d.level));
    assert Concerns(target, pair);
    if target in s.tuples {
      if u :| u in s.tuples && u != target && Concerns(u, pair) {
        assert u in Existing(ApplyDelta(m, s, d).tuples, pair);
      }
    }
  }

  /** Granting a level that already stands beside another one leaves both in the store. */
  lemma GrantLeavesOther(m: PermissionMapping, d: PermissionDelta, other: Relation, report: Report)
    requires d.Grant? && m.PairOf(d).Some? && other != m.RelationFor(d.level)
    ensures var pair := m.PairOf(d).value;
            var both := {Target(pair, m.RelationFor(d.level)), Target(pair, other)};
            ApplyDelta(m, Progress(both, report), d).tuples == both && Existing(both, pair) == both && |both| == 2
  {
    var pair := m.PairOf(d).value;
    assert Concerns(Target(pair, m.RelationFor(d.level)), pair) && Concerns(Target(pair, other), pair);
  }

  // ---------------------------------------------------------------- the objects

  /** The in-memory tuple store; its lookup index is derived data and left out. */
  class TupleStore {
    var tuples: Tuples

    /** Refuses a tuple that is present. */
    method Insert(t: RelationTuple) returns (ok: bool)
      modifies this
      ensures ok <==> t !in old(tuples)
      ensures tuples == old(tuples) + {t}
    {
      ok := t !in tuples;
      tuples := tuples + {t};
    }

    /** Refuses a tuple that is absent. */
    method Remove(t: RelationTuple) returns (ok: bool)
      modifies this
      ensures ok <==> t in old(tuples)
      ensures tuples == old(tuples) - {t}
    {
      ok := t in tuples;
      tuples := tuples - {t};
    }

    /** Iterate the store, in any order, collecting what concerns the pair. */
    method Collect(p: Pair) returns (found: seq<RelationTuple>)
      ensures NoDup(found) && forall t :: t in found <==> t in Existing(tuples, p)
    {
      found := [];
      var rest := tuples;
      while rest != {}
        invariant rest <= tuples && NoDup(found)
        invariant forall t :: t in found <==> t in tuples - rest && Concerns(t, p)
        decreases rest
      {
        var t :| t in rest;
        if t.object_ == p.object_ && t.subject == p.subject {
          NoDupPush(found, t);
          found := found + [t];
        }
        rest := rest - {t};
      }
    }
  }

  class AclSyncEngine {
    const store: TupleStore
    const mapping: PermissionMapping

    constructor (store: TupleStore, mapping: PermissionMapping)
      ensures this.store == store && this.mapping == mapping
    {
      this.store, this.mapping := store, mapping;
    }

    /** Remove the collected tuples one by one; no removal is ever refused. */
    method RemoveAll(found: seq<RelationTuple>, removed0: nat) returns (removed: nat)
      requires NoDup(found) && forall t :: t in found ==> t in store.tuples
      modifies store
      ensures store.tuples == old(store.tuples) - (set t | t in found)
      ensures removed == removed0 + |found|
    {
      removed := removed0;
      ghost var before := store.tuples;
      for i := 0 to |found|
        invariant store.tuples == before - (set t | t in found[..i])
        invariant removed == removed0 + i
      {
        assert found[i] in found && found[i] !in found[..i];
        assert found[..i + 1] == found[..i] + [found[i]];
        var ok := store.Remove(found[i]);
        assert ok;
        removed := removed + 1;
      }
      assert found[..|found|] == found;
    }

    method ApplyGrant(d: PermissionDelta, rep: Report) returns (report: Report)
      requires d.Grant?
      modifies store
      ensures Progress(store.tuples, report) == ApplyDelta(mapping, Progress(old(store.tuples), rep), d)
    {
      if d.document !in mapping.documents {
        return rep.(unknownDocuments := rep.unknownDocuments + [d.document]);
      }
      if d.user !in mapping.users {
        return rep.(unknownUsers := rep.unknownUsers + [d.user]);
      }
      var pair := Pair(ObjectRef(mapping.objectType, mapping.documents[d.document]),
                       SubjectRef(mapping.subjectType, mapping.users[d.user], None));
      var target := Target(pair, mapping.RelationFor(d.level));
      if target in store.tuples {
        return rep;
      }
      var existing := store.Collect(pair);
      CollectedCount(existing, Existing(store.tuples, pair));
      HasMember(existing);
      if existing == [] {
        var ok := store.Insert(target);
        assert ok;
        return rep.(inserted := rep.inserted + 1);
      }
      var removed := RemoveAll(existing, rep.removed);
      var ok := store.Insert(target);
      assert ok;
      return rep.(removed := removed, updated := rep.updated + 1);
    }

    method ApplyRevoke(d: PermissionDelta, rep: Report) returns (report: Report)
      requires d.Revoke?
      modifies store
      ensures Progress(store.tuples, report) == ApplyDelta(mapping, Progress(old(store.tuples), rep), d)
    {
      if d.document !in mapping.documents {
        return rep.(unknownDocuments := rep.unknownDocuments + [d.document]);
      }
      if d.user !in mapping.users {
        return rep.(unknownUsers := rep.unknownUsers + [d.user]);
      }
      var pair := Pair(ObjectRef(mapping.objectType, mapping.documents[d.document]),
                       SubjectRef(mapping.subjectType, mapping.users[d.user], None));
      var found := store.Collect(pair);
      CollectedCount(found, Existing(store.tuples, pair));
      var removed := RemoveAll(found, rep.removed);
      return rep.(removed := removed);
    }

    method Sync(deltas: seq<PermissionDelta>) returns (report: Report)
      modifies store
      ensures Progress(store.tuples, report)
              == ApplyAll(mapping, Progress(old(store.tuples), Report(0, 0, 0, [], [])), deltas)
    {
      hide ApplyDelta;
      report := EMPTY_REPORT;
      ghost var start := Progress(store.tuples, EMPTY_REPORT);
      for i := 0 to |deltas|
        invariant ApplyAll(mapping, start, deltas) == ApplyAll(mapping, Progress(store.tuples, report), deltas[i..])
      {
        assert deltas[i..][0] == deltas[i] && deltas[i..][1..] == deltas[i + 1..];
        if deltas[i].Grant? {
          report := ApplyGrant(deltas[i], report);
        } else {
          report := ApplyRevoke(deltas[i], report);
        }
      }
    }
  }

  lemma {:induction false} CollectedCount(found: seq<RelationTuple>, all: Tuples)
    requires NoDup(found) && forall t :: t in found <==> t in all
    ensures |found| == |all| && (set t | t in found) == all
    decreases |found|
  {
    if found == [] {
      assert all == {};
    } else {
      var front, last := found[..|found| - 1], found[|found| - 1];
      assert found == front + [last];
      CollectedCount(front, all - {last});
    }
  }
}
