/** The proposal lifecycle: a state machine whose terminal states absorb, and the artifacts it yields. */
module Lifecycle {
  import opened Basics

  datatype ProposalState = Proposed | UnderReview | Promoted | Rejected {
    predicate IsTerminal() { Promoted? || Rejected? }
  }

  datatype SensitivityClass = Critical | Important | Useful | Noise

  const U32_MAX: nat := 0xFFFF_FFFF

  /** Stands for the largest finite double; all that matters is that it exceeds 1. */
  const F64_MAX: real := 1000000000000.0

  function Rank(c: SensitivityClass): nat {
    match c
    case Noise => 0
    case Useful => 1
    case Important => 2
    case Critical => 3
  }

  datatype AutoPromotionPolicy = AutoPromotionPolicy(
    minConfidence: real, minCorroboration: nat, maxSensitivity: SensitivityClass, requireHumanForCritical: bool)
  {
    predicate Matches(confidence: real, corroboration: nat, sensitivity: SensitivityClass) {
      if confidence < minConfidence then false
      else if corroboration < minCorroboration then false
      else if Rank(sensitivity) > Rank(maxSensitivity) then false
      else if requireHumanForCritical && sensitivity == Critical then false
      else true
    }
  }

  const DEFAULT_POLICY := AutoPromotionPolicy(F64_MAX, U32_MAX, Noise, true)

  datatype ProposalKind = KindObservation | KindConcept | KindRelation | KindSummary

  datatype Payload =
    | Observation(claim: string, observationType: string)
    | Concept(caption: string, definition: string)
    | Relation(src: Uuid, dst: Uuid, relation: string)
    | Summary(text: string, summaryType: string)
  {
    function Kind(): ProposalKind {
      match this
      case Observation(_, _) => KindObservation
      case Concept(_, _) => KindConcept
      case Relation(_, _, _) => KindRelation
      case Summary(_, _) => KindSummary
    }
  }

  /** A submitted envelope; `textsOk` is the verdict of the per-field text checks. */
  datatype Envelope = Envelope(
    id: Uuid, scopeId: ScopeId, payload: Payload, evidence: seq<Uuid>, confidence: real, sensitivity: SensitivityClass,
    ttl: Option<nat>, supersedes: Option<Uuid>, contradicts: Option<Uuid>, agent: Uuid, createdAt: Time, textsOk: bool)

  datatype StoredProposal = StoredProposal(
    id: Uuid, state: ProposalState, scopeId: ScopeId, payload: Payload, evidence: seq<Uuid>, confidence: real,
    sensitivity: SensitivityClass, corroboration: nat, ttl: Option<nat>, supersedes: Option<Uuid>,
    contradicts: Option<Uuid>, agent: Uuid, submittedAt: Time, updatedAt: Time, rejectionReason: Option<string>)
  {
    /** A clock behind the submission time never expires a proposal. */
    predicate IsExpired(now: Time) {
      ttl.Some? && now >= submittedAt && now - submittedAt >= ttl.value
    }
  }

  const NIL := Raw(0)

  predicate Valid(e: Envelope) {
    && 0.0 <= e.confidence <= 1.0 && e.evidence != [] && e.scopeId != NIL && e.agent != NIL
    && e.ttl != Some(0) && e.textsOk
  }

  function Stored(e: Envelope): StoredProposal {
    StoredProposal(e.id, Proposed, e.scopeId, e.payload, e.evidence, e.confidence, e.sensitivity, 0, e.ttl,
                   e.supersedes, e.contradicts, e.agent, e.createdAt, e.createdAt, None)
  }

  type Proposals = map<Uuid, StoredProposal>

  datatype LifecycleError =
    | NotFound(id: Uuid)
    | InvalidTransition(id: Uuid, from: ProposalState)
    | Validation
    | Expired(id: Uuid)
    | DuplicateProposal(id: Uuid)

  datatype Op =
    | Submit(envelope: Envelope)
    | Corroborate(id: Uuid, now: Time)
    | Review(id: Uuid, policy: AutoPromotionPolicy, now: Time)
    | Promote(id: Uuid, now: Time)
    | Reject(id: Uuid, reason: string, now: Time)

  datatype Answer =
    | Accepted
    | NeedsHumanReview
    | AutoPromoted
    | Failed(error: LifecycleError)

  datatype Outcome = Outcome(proposals: Proposals, answer: Answer)

  function Expire(p: StoredProposal, now: Time): StoredProposal {
    p.(state := Rejected, updatedAt := now, rejectionReason := Some("ttl_expired"))
  }

  function SubmitTo(s: Proposals, e: Envelope): Outcome {
    if !Valid(e) then Outcome(s, Failed(Validation))
    else if e.id in s then Outcome(s, Failed(DuplicateProposal(e.id)))
    else Outcome(s[e.id := Stored(e)], Accepted)
  }

  function Saturate(n: nat): nat {
    if n < U32_MAX then n + 1 else U32_MAX
  }

  function CorroborateIn(s: Proposals, id: Uuid, now: Time): Outcome {
    if id !in s then Outcome(s, Failed(NotFound(id)))
    else
      var p := s[id];
      if p.state.IsTerminal() then Outcome(s, Failed(InvalidTransition(id, p.state)))
      else if p.IsExpired(now) then Outcome(s[id := Expire(p, now)], Failed(Expired(id)))
      else
        Outcome(s[id := p.(corroboration := Saturate(p.corroboration), updatedAt := now)], Accepted)
  }

  function ReviewIn(s: Proposals, id: Uuid, policy: AutoPromotionPolicy, now: Time): Outcome {
    if id !in s then Outcome(s, Failed(NotFound(id)))
    else
      var p := s[id];
      if p.state.IsTerminal() then Outcome(s, Failed(InvalidTransition(id, p.state)))
      else if p.IsExpired(now) then Outcome(s[id := Expire(p, now)], Failed(Expired(id)))
      else if p.state != Proposed then Outcome(s, Failed(InvalidTransition(id, p.state)))
      else if policy.Matches(p.confidence, p.corroboration, p.sensitivity) then
        Outcome(s[id := p.(state := Promoted, updatedAt := now)], AutoPromoted)
      else Outcome(s[id := p.(state := UnderReview, updatedAt := now)], NeedsHumanReview)
  }

  function PromoteIn(s: Proposals, id: Uuid, now: Time): Outcome {
    if id !in s then Outcome(s, Failed(NotFound(id)))
    else if s[id].state != UnderReview then Outcome(s, Failed(InvalidTransition(id, s[id].state)))
    else Outcome(s[id := s[id].(state := Promoted, updatedAt := now)], Accepted)
  }

  function RejectIn(s: Proposals, id: Uuid, reason: string, now: Time): Outcome {
    if id !in s then Outcome(s, Failed(NotFound(id)))
    else if s[id].state.IsTerminal() then Outcome(s, Failed(InvalidTransition(id, s[id].state)))
    else Outcome(s[id := s[id].(state := Rejected, updatedAt := now, rejectionReason := Some(reason))], Accepted)
  }

  function Exec(s: Proposals, op: Op): Outcome {
    match op
    case Submit(e) => SubmitTo(s, e)
    case Corroborate(id, now) => CorroborateIn(s, id, now)
    case Review(id, policy, now) => ReviewIn(s, id, policy, now)
    case Promote(id, now) => PromoteIn(s, id, now)
    case Reject(id, reason, now) => RejectIn(s, id, reason, now)
  }

  // ---------------------------------------------------------------- what each call does, field by field

  /** The TTL has run out: `now` is at or past the submission time plus the TTL. */
  ghost predicate Elapsed(p: StoredProposal, now: Time) {
    exists t :: p.ttl == Some(t) && p.submittedAt + t <= now
  }

  ghost predicate IsOpen(p: StoredProposal) {
    p.state == Proposed || p.state == UnderReview
  }

  /** `s` is no more sensitive than `max`, in the order Noise, Useful, Important, Critical. */
  ghost predicate NoMoreSensitive(s: SensitivityClass, max: SensitivityClass) {
    match max
    case Critical => true
    case Important => s != Critical
    case Useful => s == Useful || s == Noise
    case Noise => s == Noise
  }

  /** The three thresholds of the policy, and its reservation of critical proposals for people. */
  ghost predicate Satisfies(p: StoredProposal, policy: AutoPromotionPolicy) {
    && policy.minConfidence <= p.confidence
    && policy.minCorroboration <= p.corroboration
    && NoMoreSensitive(p.sensitivity, policy.maxSensitivity)
    && (policy.requireHumanForCritical ==> p.sensitivity != Critical)
  }

  /** `after` differs from `before` only in the record of `id`, which is now `p`. */
  ghost predicate OnlyRecord(before: Proposals, after: Proposals, id: Uuid, p: StoredProposal) {
    && after.Keys == before.Keys + {id} && after[id] == p
    && forall k :: k in before && k != id ==> after[k] == before[k]
  }

  /** A submission is accepted exactly when it is well formed and its id is new; the record starts as Proposed with
      the envelope's content, uncorroborated. */
  lemma SubmitExact(s: Proposals, e: Envelope)
    ensures var out := Exec(s, Submit(e));
            var wellFormed := && 0.0 <= e.confidence && e.confidence <= 1.0 && |e.evidence| > 0 && e.textsOk
                              && e.scopeId != Raw(0) && e.agent != Raw(0) && (e.ttl.Some? ==> e.ttl.value > 0);
            && (out.answer == Accepted <==> wellFormed && e.id !in s)
            && (out.answer == Failed(Validation) <==> !wellFormed)
            && (out.answer == Failed(DuplicateProposal(e.id)) <==> wellFormed && e.id in s)
            && (out.answer != Accepted ==> out.proposals == s)
            && (out.answer == Accepted ==>
                  OnlyRecord(s, out.proposals, e.id,
                             StoredProposal(id := e.id, state := Proposed, scopeId := e.scopeId, payload := e.payload,
                                            evidence := e.evidence, confidence := e.confidence,
                                            sensitivity := e.sensitivity, corroboration := 0, ttl := e.ttl,
                                            supersedes := e.supersedes, contradicts := e.contradicts, agent := e.agent,
                                            submittedAt := e.createdAt, updatedAt := e.createdAt,
                                            rejectionReason := None)))
  {}

  /** A call that meets an open proposal whose TTL has run out rejects it for that reason and says so. */
  ghost predicate MeetsExpired(s: Proposals, id: Uuid, now: Time, out: Outcome) {
    && (out.answer == Failed(Expired(id)) <==> id in s && IsOpen(s[id]) && Elapsed(s[id], now))
    && (out.answer == Failed(Expired(id)) && id in s ==>
          OnlyRecord(s, out.proposals, id,
                     s[id].(state := Rejected, rejectionReason := Some("ttl_expired"), updatedAt := now)))
  }

  /** The refusals that leave everything as it was. */
  ghost predicate RefusedAsIs(s: Proposals, id: Uuid, out: Outcome, invalid: bool) {
    && (out.answer == Failed(NotFound(id)) <==> id !in s)
    && ((exists from :: out.answer == Failed(InvalidTransition(id, from))) <==> invalid)
    && (invalid && id in s ==> out.answer == Failed(InvalidTransition(id, s[id].state)))
    && (id !in s || invalid ==> out.proposals == s)
  }

  /** A corroboration of an open, unexpired proposal counts once more, up to the largest 32-bit number. */
  lemma CorroborateExact(s: Proposals, id: Uuid, now: Time)
    ensures var out := Exec(s, Corroborate(id, now));
            && MeetsExpired(s, id, now, out)
            && RefusedAsIs(s, id, out, id in s && !IsOpen(s[id]))
            && (out.answer == Accepted <==> id in s && IsOpen(s[id]) && !Elapsed(s[id], now))
            && (out.answer == Accepted && id in s ==>
                  var count := s[id].corroboration;
                  OnlyRecord(s, out.proposals, id,
                             s[id].(corroboration := if count < 0xFFFF_FFFF then count + 1 else 0xFFFF_FFFF,
                                    updatedAt := now)))
  {}

  /** A review of a proposed, unexpired proposal promotes it exactly when it satisfies the policy, and otherwise
      sends it to a person. */
  lemma ReviewExact(s: Proposals, id: Uuid, policy: AutoPromotionPolicy, now: Time)
    ensures var out := Exec(s, Review(id, policy, now));
            var ready := id in s && s[id].state == Proposed && !Elapsed(s[id], now);
            && MeetsExpired(s, id, now, out)
            && RefusedAsIs(s, id, out,
                           id in s && (!IsOpen(s[id]) || (s[id].state == UnderReview && !Elapsed(s[id], now))))
            && (out.answer == AutoPromoted <==> ready && Satisfies(s[id], policy))
            && (out.answer == NeedsHumanReview <==> ready && !Satisfies(s[id], policy))
            && (ready ==>
                  OnlyRecord(s, out.proposals, id,
                             s[id].(state := if Satisfies(s[id], policy) then Promoted else UnderReview,
                                    updatedAt := now)))
  {}

  /** An explicit promotion takes exactly a proposal under review, whatever its TTL. */
  lemma PromoteExact(s: Proposals, id: Uuid, now: Time)
    ensures var out := Exec(s, Promote(id, now));
            && RefusedAsIs(s, id, out, id in s && s[id].state != UnderReview)
            && (out.answer == Accepted <==> id in s && s[id].state == UnderReview)
            && (out.answer == Accepted && id in s ==>
                  OnlyRecord(s, out.proposals, id, s[id].(state := Promoted, updatedAt := now)))
  {}

  /** A rejection is accepted exactly for an open proposal, which is then Rejected with the reason given. */
  lemma RejectExact(s: Proposals, id: Uuid, reason: string, now: Time)
    ensures var out := Exec(s, Reject(id, reason, now));
            && RefusedAsIs(s, id, out, id in s && !IsOpen(s[id]))
            && (out.answer == Accepted <==> id in s && IsOpen(s[id]))
            && (out.answer == Accepted && id in s ==>
                  OnlyRecord(s, out.proposals, id,
                             s[id].(state := Rejected, rejectionReason := Some(reason), updatedAt := now)))
  {}

  // ---------------------------------------------------------------- histories

  /** The store after a whole run from the empty store. */
  function After(ops: seq<Op>): Proposals {
    if ops == [] then map[] else Exec(After(ops[..|ops| - 1]), ops[|ops| - 1]).proposals
  }

  /** What the `i`-th call of a run was told. */
  function AnswerAt(ops: seq<Op>, i: nat): Answer
    requires i < |ops|
  {
    Exec(After(ops[..i]), ops[i]).answer
  }

  predicate Reviewed(ops: seq<Op>, i: nat, id: Uuid)
    requires i < |ops|
  {
    ops[i].Review? && ops[i].id == id && !AnswerAt(ops, i).Failed?
  }

  predicate ExplicitlyPromoted(ops: seq<Op>, i: nat, id: Uuid)
    requires i < |ops|
  {
    ops[i].Promote? && ops[i].id == id && !AnswerAt(ops, i).Failed?
  }

  /** The calls that reviewed `id` successfully. */
  function Reviews(ops: seq<Op>, id: Uuid): seq<nat> {
    if ops == [] then []
    else
      var front := Reviews(ops[..|ops| - 1], id);
      if Reviewed(ops, |ops| - 1, id) then front + [|ops| - 1] else front
  }

  /** The calls that promoted `id` by hand. */
  function Promotions(ops: seq<Op>, id: Uuid): seq<nat> {
    if ops == [] then []
    else
      var front := Promotions(ops[..|ops| - 1], id);
      if ExplicitlyPromoted(ops, |ops| - 1, id) then front + [|ops| - 1] else front
  }

  function StateOf(s: Proposals, id: Uuid): Option<ProposalState> {
    if id in s then Some(s[id].state) else None
  }

  /** What a state says about the successful reviews `r` (the first answered `verdict`) and promotions `p` before
      call `n`. */
  ghost predicate Tells(state: Option<ProposalState>, r: seq<nat>, p: seq<nat>, verdict: Answer, n: nat) {
    && |r| <= 1 && |p| <= 1
    && (r != [] ==> r[0] < n) && (p != [] ==> p[0] < n)
    && match state
       case None => r == [] && p == []
       case Some(Proposed) => r == [] && p == []
       case Some(UnderReview) => |r| == 1 && verdict.NeedsHumanReview? && p == []
       case Some(Rejected) => p == [] && (r != [] ==> verdict.NeedsHumanReview?)
       case Some(Promoted) =>
         |r| == 1 && (if p == [] then verdict.AutoPromoted? else verdict.NeedsHumanReview? && r[0] < p[0])
  }

  function Verdict(ops: seq<Op>, r: seq<nat>): Answer {
    if r != [] && r[0] < |ops| then AnswerAt(ops, r[0]) else Accepted
  }

  /** The state of `id` is explained by the calls that led to it. */
  ghost predicate Explained(ops: seq<Op>, id: Uuid) {
    Tells(StateOf(After(ops), id), Reviews(ops, id), Promotions(ops, id), Verdict(ops, Reviews(ops, id)), |ops|)
  }

  lemma PrefixAnswer(ops: seq<Op>, op: Op, i: nat)
    requires i < |ops|
    ensures AnswerAt(ops + [op], i) == AnswerAt(ops, i)
  {
    assert (ops + [op])[..i] == ops[..i];
  }

  lemma SnocHistory(ops: seq<Op>, op: Op, id: Uuid)
    ensures var out := Exec(After(ops), op);
            && After(ops + [op]) == out.proposals
            && AnswerAt(ops + [op], |ops|) == out.answer
            && Reviews(ops + [op], id)
                == Reviews(ops, id) + (if op.Review? && op.id == id && !out.answer.Failed? then [|ops|] else [])
            && Promotions(ops + [op], id)
                == Promotions(ops, id) + (if op.Promote? && op.id == id && !out.answer.Failed? then [|ops|] else [])
  {
    assert (ops + [op])[..|ops|] == ops;
  }

  /** How one call may move a state. */
  ghost predicate Moves(before: Option<ProposalState>, after: Option<ProposalState>, reviewed: bool, promoted: bool,
                        answer: Answer) {
    if reviewed then
      && !promoted && before == Some(Proposed)
      && ((answer.AutoPromoted? && after == Some(Promoted)) || (answer.NeedsHumanReview? && after == Some(UnderReview)))
    else if promoted then before == Some(UnderReview) && after == Some(Promoted)
    else
      || after == before
      || (before.None? && after == Some(Proposed))
      || ((before == Some(Proposed) || before == Some(UnderReview)) && after == Some(Rejected))
  }

  lemma Transition(s: Proposals, op: Op, id: Uuid)
    ensures var out := Exec(s, op);
            Moves(StateOf(s, id), StateOf(out.proposals, id),
                  op.Review? && op.id == id && !out.answer.Failed?,
                  op.Promote? && op.id == id && !out.answer.Failed?, out.answer)
  {}

  lemma TellsNext(before: Option<ProposalState>, after: Option<ProposalState>, r: seq<nat>, p: seq<nat>,
                  verdict: Answer, n: nat, reviewed: bool, promoted: bool, answer: Answer)
    requires Tells(before, r, p, verdict, n) && Moves(before, after, reviewed, promoted, answer)
    ensures Tells(after, r + (if reviewed then [n] else []), p + (if promoted then [n] else []),
                  if r != [] then verdict else answer, n + 1)
  {}

  lemma TellsVerdict(state: Option<ProposalState>, r: seq<nat>, p: seq<nat>, v: Answer, w: Answer, n: nat)
    requires Tells(state, r, p, v, n) && (r != [] ==> v == w)
    ensures Tells(state, r, p, w, n)
  {}

  /** In every run, the state of every proposal is explained by its history. */
  lemma {:induction false} HistoryExplains(ops: seq<Op>, id: Uuid)
    ensures Explained(ops, id)
    decreases |ops|
  {
    if ops != [] {
      var front, op := ops[..|ops| - 1], ops[|ops| - 1];
      assert ops == front + [op];
      HistoryExplains(front, id);
      SnocHistory(front, op, id);
      Transition(After(front), op, id);
      var r, p := Reviews(front, id), Promotions(front, id);
      if r != [] && r[0] < |front| { PrefixAnswer(front, op, r[0]); }
      var out := Exec(After(front), op);
      var reviewed := op.Review? && op.id == id && !out.answer.Failed?;
      var promoted := op.Promote? && op.id == id && !out.answer.Failed?;
      assert r != [] ==> r[0] < |front|;
      hide Exec, After, Reviews, Promotions, AnswerAt, Tells, Moves, StateOf;
      TellsNext(StateOf(After(front), id), StateOf(out.proposals, id), r, p, Verdict(front, r), |front|, reviewed,
          promoted, out.answer);
      TellsVerdict(StateOf(After(ops), id), Reviews(ops, id), Promotions(ops, id),
                   if r != [] then Verdict(front, r) else out.answer, Verdict(ops, Reviews(ops, id)), |ops|);
    } else {
      assert StateOf(After([]), id) == None;
    }
  }

  /** The `i`-th call reviewed an unexpired proposal whose values matched its policy at that moment. */
  ghost predicate PolicyMatched(ops: seq<Op>, i: nat)
    requires i < |ops|
  {
    var s, op := After(ops[..i]), ops[i];
    && op.Review? && op.id in s && s[op.id].state == Proposed && !Elapsed(s[op.id], op.now)
    && Satisfies(s[op.id], op.policy)
  }

  /** A review promotes exactly an unexpired proposal that its policy matches. */
  lemma AutoPromotionJustified(ops: seq<Op>, i: nat)
    requires i < |ops|
    ensures AnswerAt(ops, i).AutoPromoted? <==> PolicyMatched(ops, i)
  {
    var op := ops[i];
    if op.Review? { ReviewExact(After(ops[..i]), op.id, op.policy, op.now); }
  }

  /** Every promoted proposal has exactly one successful review, whose policy matched it or which was followed by an
      explicit promotion. */
  lemma PromotedIsJustified(ops: seq<Op>, id: Uuid)
    requires id in After(ops) && After(ops)[id].state.Promoted?
    ensures exists i: nat ::
              && i < |ops| && Reviews(ops, id) == [i] && Reviewed(ops, i, id)
              && ((PolicyMatched(ops, i) && Promotions(ops, id) == [])
                  || (!PolicyMatched(ops, i)
                      && exists j: nat :: i < j < |ops| && Promotions(ops, id) == [j]
                          && ExplicitlyPromoted(ops, j, id)))
  {
    HistoryExplains(ops, id);
    ReviewsReviewed(ops, id);
    hide Exec, After, AnswerAt, PolicyMatched;
    var r, p := Reviews(ops, id), Promotions(ops, id);
    assert r == [r[0]];
    AutoPromotionJustified(ops, r[0]);
    if p != [] { assert p == [p[0]]; }
  }

  lemma {:induction false} ReviewsReviewed(ops: seq<Op>, id: Uuid)
    ensures forall k :: 0 <= k < |Reviews(ops, id)| ==>
            Reviews(ops, id)[k] < |ops| && Reviewed(ops, Reviews(ops, id)[k], id)
    ensures forall k :: 0 <= k < |Promotions(ops, id)| ==>
              Promotions(ops, id)[k] < |ops| && ExplicitlyPromoted(ops, Promotions(ops, id)[k], id)
    decreases |ops|
  {
    if ops != [] {
      var front, op := ops[..|ops| - 1], ops[|ops| - 1];
      assert ops == front + [op];
      ReviewsReviewed(front, id);
      SnocHistory(front, op, id);
      forall k: nat | k < |front| ensures AnswerAt(ops, k) == AnswerAt(front, k) { PrefixAnswer(front, op, k); }
    }
  }

  /** Facts that hold of every stored proposal in every run. */
  ghost predicate Sane(s: Proposals) {
    forall id :: id in s ==>
      && s[id].id == id
      && (s[id].rejectionReason.Some? <==> s[id].state.Rejected?)
      && 0.0 <= s[id].confidence <= 1.0
      && s[id].ttl != Some(0)
  }

  lemma SaneStep(s: Proposals, op: Op)
    requires Sane(s)
    ensures Sane(Exec(s, op).proposals)
  {
    match op
    case Submit(e) => assert Sane(SubmitTo(s, e).proposals);
    case Corroborate(id, now) => assert Sane(CorroborateIn(s, id, now).proposals);
    case Review(id, policy, now) => assert Sane(ReviewIn(s, id, policy, now).proposals);
    case Promote(id, now) => assert Sane(PromoteIn(s, id, now).proposals);
    case Reject(id, reason, now) => assert Sane(RejectIn(s, id, reason, now).proposals);
  }

  /** A rejection reason is present exactly when the proposal is rejected. */
  lemma {:induction false} RunSane(ops: seq<Op>)
    ensures Sane(After(ops))
    decreases |ops|
  {
    if ops != [] {
      RunSane(ops[..|ops| - 1]);
      hide Exec, Sane;
      SaneStep(After(ops[..|ops| - 1]), ops[|ops| - 1]);
    }
  }

  /** Everything a submission fixes once and for all. */
  ghost predicate From(p: StoredProposal, e: Envelope) {
    && p.id == e.id && p.scopeId == e.scopeId && p.payload == e.payload && p.evidence == e.evidence
    && p.confidence == e.confidence && p.sensitivity == e.sensitivity && p.ttl == e.ttl
    && p.supersedes == e.supersedes && p.contradicts == e.contradicts && p.agent == e.agent
    && p.submittedAt == e.createdAt
  }

  predicate Submitted(ops: seq<Op>, i: nat, id: Uuid)
    requires i < |ops|
  {
    ops[i].Submit? && ops[i].envelope.id == id && AnswerAt(ops, i).Accepted?
  }

  lemma ContentStep(s: Proposals, op: Op, id: Uuid)
    requires id in Exec(s, op).proposals
    ensures if id in s then
              (forall e :: From(s[id], e) ==> From(Exec(s, op).proposals[id], e))
              && !(op.Submit? && op.envelope.id == id && Exec(s, op).answer.Accepted?)
            else
              op.Submit? && op.envelope.id == id && Exec(s, op).answer.Accepted?
                  && From(Exec(s, op).proposals[id], op.envelope)
  {}

  /** Every stored proposal comes from exactly one accepted submission, and its content is that submission's for
      ever. */
  lemma {:induction false} ContentFixed(ops: seq<Op>, id: Uuid) returns (k: nat)
    requires id in After(ops)
    ensures k < |ops| && Submitted(ops, k, id) && From(After(ops)[id], ops[k].envelope)
    ensures forall i: nat :: i < |ops| && Submitted(ops, i, id) ==> i == k
    decreases |ops|
  {
    var front, op := ops[..|ops| - 1], ops[|ops| - 1];
    assert ops == front + [op];
    SnocHistory(front, op, id);
    ContentStep(After(front), op, id);
    forall i: nat | i < |front| ensures Submitted(ops, i, id) <==> Submitted(front, i, id) {
      PrefixAnswer(front, op, i);
    }
    hide Exec, After, From, AnswerAt;
    if id in After(front) {
      k := ContentFixed(front, id);
    } else {
      k := |front|;
      NeverSubmitted(front, id);
    }
  }

  lemma {:induction false} NeverSubmitted(ops: seq<Op>, id: Uuid)
    requires id !in After(ops)
    ensures forall i: nat :: i < |ops| ==> !Submitted(ops, i, id)
    decreases |ops|
  {
    if ops != [] {
      var front, op := ops[..|ops| - 1], ops[|ops| - 1];
      assert ops == front + [op];
      SnocHistory(front, op, id);
      KeepsIds(After(front), op, id);
      forall i: nat | i < |front| ensures Submitted(ops, i, id) <==> Submitted(front, i, id) {
        PrefixAnswer(front, op, i);
      }
      hide Exec, After, AnswerAt;
      NeverSubmitted(front, id);
    }
  }

  lemma KeepsIds(s: Proposals, op: Op, id: Uuid)
    ensures id in s ==> id in Exec(s, op).proposals
    ensures op.Submit? && op.envelope.id == id && Exec(s, op).answer.Accepted? ==> id in Exec(s, op).proposals
  {}

  /** The accepted corroborations of `id`. */
  function Corroborations(ops: seq<Op>, id: Uuid): nat {
    if ops == [] then 0
    else
      var n := |ops| - 1;
      var counted := ops[n].Corroborate? && ops[n].id == id && AnswerAt(ops, n).Accepted?;
      Corroborations(ops[..n], id) + if counted then 1 else 0
  }

  /** The stored count is the number of accepted corroborations, saturating at the counter's limit. */
  lemma {:induction false} CorroborationsCounted(ops: seq<Op>, id: Uuid)
    ensures if id in After(ops) then
              After(ops)[id].corroboration == if Corroborations(ops, id) < U32_MAX then Corroborations(ops, id)
                  else U32_MAX
            else Corroborations(ops, id) == 0
    decreases |ops|
  {
    if ops != [] {
      var front, op := ops[..|ops| - 1], ops[|ops| - 1];
      CorroborationsCounted(front, id);
      var s := After(front);
      CountStep(s, op, id);
      hide Exec;
    }
  }

  lemma CountStep(s: Proposals, op: Op, id: Uuid)
    ensures var out := Exec(s, op);
            var counted := op.Corroborate? && op.id == id && out.answer.Accepted?;
            && (counted ==> id in s)
            && (id in s ==>
                  && id in out.proposals
                  && out.proposals[id].corroboration == if counted then Saturate(s[id].corroboration)
                      else s[id].corroboration)
            && (id !in s && id in out.proposals ==> out.proposals[id].corroboration == 0)
  {}

  /** The default policy sets every bar as high as it goes. */
  lemma DefaultPolicyExact()
    ensures DEFAULT_POLICY.minConfidence > 1.0 && DEFAULT_POLICY.minCorroboration == 0xFFFF_FFFF
    ensures DEFAULT_POLICY.maxSensitivity == Noise && DEFAULT_POLICY.requireHumanForCritical
  {}

  /** Deny by default: the default policy never promotes anything by itself. */
  lemma DefaultPolicyDenies(ops: seq<Op>, i: nat)
    requires i < |ops| && ops[i].Review? && ops[i].policy == DEFAULT_POLICY
    ensures !AnswerAt(ops, i).AutoPromoted?
  {
    RunSane(ops[..i]);
    var s := After(ops[..i]);
    assert ops[i].id in s ==> s[ops[i].id].confidence <= 1.0;
  }

  /** Explicit promotion looks only at the state; it goes through whether or not the TTL has elapsed. */
  lemma PromoteIff(s: Proposals, id: Uuid, now: Time)
    ensures PromoteIn(s, id, now).answer.Accepted? <==> id in s && s[id].state.UnderReview?
  {}

  /** A run in which a proposal whose TTL has elapsed is promoted all the same. */
  lemma ExpiredProposalPromoted(e: Envelope)
    requires Valid(e) && e.ttl.Some?
    ensures var ops := [Submit(e), Review(e.id, DEFAULT_POLICY, e.createdAt), Promote(e.id, e.createdAt + e.ttl.value)];
            && e.id in After(ops) && After(ops)[e.id].state.Promoted?
            && Elapsed(After(ops)[e.id], e.createdAt + e.ttl.value)
  {
    var a, b, c := Submit(e), Review(e.id, DEFAULT_POLICY, e.createdAt), Promote(e.id, e.createdAt + e.ttl.value);
    assert [a, b, c][..2] == [a, b] && [a, b][..1] == [a] && [a][..0] == [];
    assert After([]) == map[];
    assert After([a]) == map[e.id := Stored(e)];
    assert After([a, b])[e.id].state == UnderReview;
  }

  // ---------------------------------------------------------------- terminal states

  lemma Absorbing(s: Proposals, op: Op, id: Uuid)
    requires id in s && s[id].state.IsTerminal()
    ensures id in Exec(s, op).proposals && Exec(s, op).proposals[id] == s[id]
  {}

  /** Once terminal, a proposal is the same record for ever, resubmission included. */
  lemma {:induction false} TerminalForever(ops: seq<Op>, more: seq<Op>, id: Uuid)
    requires id in After(ops) && After(ops)[id].state.IsTerminal()
    ensures id in After(ops + more) && After(ops + more)[id] == After(ops)[id]
    decreases |more|
  {
    if more == [] {
      assert ops + more == ops;
    } else {
      var front, op := more[..|more| - 1], more[|more| - 1];
      TerminalForever(ops, front, id);
      assert ops + more == (ops + front) + [op];
      SnocHistory(ops + front, op, id);
      Absorbing(After(ops + front), op, id);
    }
  }

  // ---------------------------------------------------------------- the TTL over whole runs

  /** The `k`-th call is the one that made `id` Promoted. */
  ghost predicate PromotedAt(ops: seq<Op>, id: Uuid, k: nat) {
    k < |ops| && StateOf(After(ops[..k]), id) != Some(Promoted) && StateOf(After(ops[..k + 1]), id) == Some(Promoted)
  }

  lemma StaysPromoted(ops: seq<Op>, id: Uuid, a: nat, b: nat)
    requires a <= b <= |ops| && StateOf(After(ops[..a]), id) == Some(Promoted)
    ensures id in After(ops[..a]) && id in After(ops[..b]) && After(ops[..b])[id] == After(ops[..a])[id]
  {
    hide After, Exec;
    assert ops[..b] == ops[..a] + ops[a..b];
    TerminalForever(ops[..a], ops[a..b], id);
  }

  lemma OnePromotion(ops: seq<Op>, id: Uuid, a: nat, b: nat)
    requires PromotedAt(ops, id, a) && PromotedAt(ops, id, b)
    ensures a == b
  {
    if a < b { StaysPromoted(ops, id, a + 1, b); }
    if b < a { StaysPromoted(ops, id, b + 1, a); }
  }

  lemma PromotesAt(ops: seq<Op>, id: Uuid, k: nat)
    requires k < |ops| && (ExplicitlyPromoted(ops, k, id) || (Reviewed(ops, k, id) && PolicyMatched(ops, k)))
    ensures PromotedAt(ops, id, k) && id in After(ops[..k])
    ensures var p := After(ops[..k])[id];
            After(ops[..k + 1])[id] == p.(state := Promoted, updatedAt := ops[k].now)
  {
    assert ops[..k + 1] == ops[..k] + [ops[k]];
    SnocHistory(ops[..k], ops[k], id);
    hide After;
  }

  /** Whether the TTL of the promoted proposal had run out at the moment of its promotion. */
  ghost predicate PromotedInTime(ops: seq<Op>, id: Uuid, k: nat)
    requires PromotedAt(ops, id, k)
  {
    (ops[k].Review? || ops[k].Promote?) && id in After(ops[..k]) && !Elapsed(After(ops[..k])[id], ops[k].now)
  }

  /** The explicit promotion if there is one, else the review that matched. */
  lemma PromotionCall(ops: seq<Op>, id: Uuid) returns (k: nat)
    requires id in After(ops) && After(ops)[id].state.Promoted?
    ensures k < |ops|
    ensures if Promotions(ops, id) == [] then Reviewed(ops, k, id) && PolicyMatched(ops, k)
            else Promotions(ops, id) == [k] && ExplicitlyPromoted(ops, k, id)
  {
    HistoryExplains(ops, id);
    ReviewsReviewed(ops, id);
    hide After, Reviews, Promotions, Exec, AnswerAt, PolicyMatched;
    var r, p := Reviews(ops, id), Promotions(ops, id);
    k := if p == [] then r[0] else p[0];
    if p == [] { AutoPromotionJustified(ops, k); }
  }

  /** There is one call that promoted the proposal. It came in time exactly when it was a review, or an explicit
      promotion made before the TTL had run out. */
  lemma PromotedInTimeIff(ops: seq<Op>, id: Uuid) returns (k: nat)
    requires id in After(ops) && After(ops)[id].state.Promoted?
    ensures PromotedAt(ops, id, k) && forall l: nat :: PromotedAt(ops, id, l) ==> l == k
    ensures PromotedInTime(ops, id, k) <==>
            || Promotions(ops, id) == []
            || var j := Promotions(ops, id)[0];
               j < |ops| && ops[j].Promote? && !Elapsed(After(ops)[id], ops[j].now)
  {
    hide After, Reviews, Promotions, Exec, AnswerAt;
    k := PromotionCall(ops, id);
    PromotesAt(ops, id, k);
    StaysPromoted(ops, id, k + 1, |ops|);
    assert ops[..|ops|] == ops;
    forall l: nat | PromotedAt(ops, id, l) ensures l == k { OnePromotion(ops, id, l, k); }
  }

  // ---------------------------------------------------------------- canonical artifacts

  datatype CanonicalArtifact = CanonicalArtifact(
    kind: ProposalKind, id: Uuid, scopeId: ScopeId, proposalId: Uuid, payload: Payload,
    sensitivity: Option<SensitivityClass>, evidence: seq<Uuid>)

  function Namespace(kind: ProposalKind): Uuid {
    match kind
    case KindObservation => Raw(0x6f627365_7276_356e_8000_000000000001)
    case KindConcept => Raw(0x636f6e63_6570_3574_8000_000000000002)
    case KindRelation => Raw(0x72656c61_7469_6f6e_8000_000000000003)
    case KindSummary => Raw(0x73756d6d_6172_3579_8000_000000000004)
  }

  function DeriveCanonicalId(kind: ProposalKind, proposalId: Uuid): Uuid {
    NameBased(Namespace(kind), [proposalId])
  }

  /** Relations carry no sensitivity, and only observations carry their evidence. */
  function PromoteToCanonical(s: Proposals, id: Uuid): Result<CanonicalArtifact, LifecycleError> {
    if id !in s then Err(NotFound(id))
    else if s[id].state != Promoted then Err(InvalidTransition(id, s[id].state))
    else
      var p := s[id];
      var kind := p.payload.Kind();
      Ok(CanonicalArtifact(kind, DeriveCanonicalId(kind, p.id), p.scopeId, p.id, p.payload,
                           if p.payload.Relation? then None else Some(p.sensitivity),
                           if p.payload.Observation? then p.evidence else []))
  }

  /** A promoted proposal yields the same artifact after any further calls. */
  lemma ArtifactForever(ops: seq<Op>, more: seq<Op>, id: Uuid)
    requires PromoteToCanonical(After(ops), id).Ok?
    ensures PromoteToCanonical(After(ops + more), id) == PromoteToCanonical(After(ops), id)
  {
    TerminalForever(ops, more, id);
  }

  /** The artifact carries the content of the one submission it comes from. */
  lemma ArtifactFromSubmission(ops: seq<Op>, id: Uuid) returns (k: nat)
    requires PromoteToCanonical(After(ops), id).Ok?
    ensures k < |ops| && Submitted(ops, k, id)
    ensures var a, e := PromoteToCanonical(After(ops), id).value, ops[k].envelope;
            && a.proposalId == id && a.id == DeriveCanonicalId(a.kind, id)
            && a.scopeId == e.scopeId && a.payload == e.payload
            && (a.kind == KindObservation <==> e.payload.Observation?)
            && (a.kind == KindConcept <==> e.payload.Concept?)
            && (a.kind == KindRelation <==> e.payload.Relation?) && (a.kind == KindSummary <==> e.payload.Summary?)
            && (if e.payload.Relation? then a.sensitivity == None else a.sensitivity == Some(e.sensitivity))
            && (if e.payload.Observation? then a.evidence == e.evidence else a.evidence == [])
  {
    k := ContentFixed(ops, id);
    RunSane(ops);
  }

  /** An artifact exists exactly for a promoted proposal; other ids are told why not. */
  lemma ArtifactIff(s: Proposals, id: Uuid)
    ensures PromoteToCanonical(s, id).Ok? <==> id in s && s[id].state == Promoted
    ensures PromoteToCanonical(s, id) == Err(NotFound(id)) <==> id !in s
    ensures id in s && s[id].state != Promoted ==> PromoteToCanonical(s, id) == Err(InvalidTransition(id, s[id].state))
  {}

  /** Four letters as the leading 32 bits of a UUID. */
  function Letters(s: string): nat
    requires |s| == 4
  {
    (((s[0] as int * 0x100 + s[1] as int) * 0x100 + s[2] as int) * 0x100
        + s[3] as int) * 0x1_0000_0000_0000_0000_0000_0000
  }

  /** Each namespace begins with the first letters of its kind. */
  lemma NamespacesSpellKinds(kind: ProposalKind)
    ensures var word := match kind
                        case KindObservation => "obse"
                        case KindConcept => "conc"
                        case KindRelation => "rela"
                        case KindSummary => "summ";
            && Namespace(kind).Raw?
            && Letters(word) <= Namespace(kind).bits < Letters(word) + 0x1_0000_0000_0000_0000_0000_0000
  {}

  /** Artifacts share an id exactly when they come from the same proposal. */
  lemma ArtifactIdsDistinct(ops: seq<Op>, a: Uuid, b: Uuid)
    requires PromoteToCanonical(After(ops), a).Ok? && PromoteToCanonical(After(ops), b).Ok?
    ensures PromoteToCanonical(After(ops), a).value.id == PromoteToCanonical(After(ops), b).value.id <==> a == b
  {
    RunSane(ops);
    hide After;
    var x, y := PromoteToCanonical(After(ops), a).value, PromoteToCanonical(After(ops), b).value;
    if x.id == y.id {
      assert [x.proposalId][0] == [y.proposalId][0];
    }
  }

  /** The four id streams are disjoint, and each is injective. */
  lemma CanonicalIdInjective(k1: ProposalKind, p1: Uuid, k2: ProposalKind, p2: Uuid)
    ensures DeriveCanonicalId(k1, p1) == DeriveCanonicalId(k2, p2) <==> k1 == k2 && p1 == p2
  {
    if DeriveCanonicalId(k1, p1) == DeriveCanonicalId(k2, p2) {
      assert [p1][0] == [p2][0];
    }
  }

  // ---------------------------------------------------------------- the object

  class ProposalStore {
    var proposals: Proposals

    constructor ()
      ensures proposals == map[]
    {
      proposals := map[];
    }

    /** The four typed `submit_*` entry points share this body; they differ in the payload they wrap. */
    method Submit(e: Envelope) returns (r: Answer)
      modifies this
      ensures Outcome(proposals, r) == SubmitTo(old(proposals), e)
    {
      if !Valid(e) { return Failed(Validation); }
      if e.id in proposals { return Failed(DuplicateProposal(e.id)); }
      proposals := proposals[e.id := Stored(e)];
      return Accepted;
    }

    method RecordCorroboration(id: Uuid, now: Time) returns (r: Answer)
      modifies this
      ensures Outcome(proposals, r) == CorroborateIn(old(proposals), id, now)
    {
      if id !in proposals { return Failed(NotFound(id)); }
      var p := proposals[id];
      if p.state.IsTerminal() { return Failed(InvalidTransition(id, p.state)); }
      if p.IsExpired(now) {
        proposals := proposals[id := Expire(p, now)];
        return Failed(Expired(id));
      }
      proposals := proposals[id := p.(corroboration := Saturate(p.corroboration), updatedAt := now)];
      return Accepted;
    }

    method Review(id: Uuid, policy: AutoPromotionPolicy, now: Time) returns (r: Answer)
      modifies this
      ensures Outcome(proposals, r) == ReviewIn(old(proposals), id, policy, now)
    {
      if id !in proposals { return Failed(NotFound(id)); }
      var p := proposals[id];
      if p.state.IsTerminal() { return Failed(InvalidTransition(id, p.state)); }
      if p.IsExpired(now) {
        proposals := proposals[id := Expire(p, now)];
        return Failed(Expired(id));
      }
      if p.state != Proposed { return Failed(InvalidTransition(id, p.state)); }
      p := p.(state := UnderReview, updatedAt := now);
      if policy.Matches(p.confidence, p.corroboration, p.sensitivity) {
        proposals := proposals[id := p.(state := Promoted, updatedAt := now)];
        return AutoPromoted;
      }
      proposals := proposals[id := p];
      return NeedsHumanReview;
    }

    method Promote(id: Uuid, now: Time) returns (r: Answer)
      modifies this
      ensures Outcome(proposals, r) == PromoteIn(old(proposals), id, now)
    {
      if id !in proposals { return Failed(NotFound(id)); }
      if proposals[id].state != UnderReview { return Failed(InvalidTransition(id, proposals[id].state)); }
      proposals := proposals[id := proposals[id].(state := Promoted, updatedAt := now)];
      return Accepted;
    }

    method Reject(id: Uuid, reason: string, now: Time) returns (r: Answer)
      modifies this
      ensures Outcome(proposals, r) == RejectIn(old(proposals), id, reason, now)
    {
      if id !in proposals { return Failed(NotFound(id)); }
      var p := proposals[id];
      if p.state.IsTerminal() { return Failed(InvalidTransition(id, p.state)); }
      proposals := proposals[id := p.(state := Rejected, updatedAt := now, rejectionReason := Some(reason))];
      return Accepted;
    }
  }
}
