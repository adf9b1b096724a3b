/** Any number of decision handlers running against one database, each in its own transaction, with a
    failure possible at every write, and the conservation laws that every reachable state satisfies. */
module DecisionProtocol {
  import opened Wrappers
  import opened GrantRepository
  import opened Decision
  import Challenges
  import Keyring

  // ---- the machine ----

  datatype Stage = Begun | Used | Recorded | Audited | Linked

  /** What a transaction has written and not yet committed; the consumed grant's row stays locked. */
  datatype Pending = Pending(held: Option<string>, executions: map<string, Execution>, events: map<string, Event>)

  const EMPTY := Pending(None, map[], map[])

  /** A challenge that was read, what the read answered, and whether it has been marked used. */
  datatype Looked = Looked(call: Challenges.Call, answer: Challenges.Result, marked: bool)

  datatype Session =
    | Idle
    | Attempting(execId: string)
    | Evaluated(execId: string, policy: PolicyResult, grants: seq<GrantRow>, looked: Option<Looked>)
    | InTx(execId: string, judged: PolicyResult, result: PolicyResult, stage: Stage, eventId: Option<string>, pending: Pending)
    | Failing(grantId: Option<string>)
    | Done(answer: Answer)

  /** used holds every identifier handed out so far, and initial the use counts grants started with. */
  datatype State = State(db: Db, sessions: map<int, Session>, used: set<string>, initial: map<string, int>,
                         challenges: Challenges.Store)

  datatype Step =
    | Start(w: int, execId: string)
    | Evaluate(w: int, policy: PolicyResult, grants: seq<GrantRow>)
    | Look(w: int, call: Challenges.Call)
    | Mark(w: int)
    | Decide(w: int, inquiry: Inquiry, verify: GrantRow -> Keyring.SignatureResult)
    | Consume(w: int)
    | Record(w: int)
    | Audit(w: int, eventId: string)
    | Link(w: int)
    | Commit(w: int, acknowledged: bool)
    | Fail(w: int)
    | RecordFailure(w: int, failureId: string, acknowledged: bool)
    | GiveUp(w: int)
    | Return(w: int)
    | Administer(op: GrantRepository.Operation)
    | Issue(create: Challenges.Operation)

  function SessionOf(s: State, w: int): Session {
    if w in s.sessions then s.sessions[w] else Idle
  }

  predicate At(s: State, w: int, stage: Stage) {
    SessionOf(s, w).InTx? && SessionOf(s, w).stage == stage
  }

  predicate Holds(k: Session, id: string) {
    k.InTx? && k.pending.held == Some(id)
  }

  predicate Locked(s: State, id: string) {
    exists w :: w in s.sessions && Holds(s.sessions[w], id)
  }

  /** The listed rows are rows of the table at this moment. */
  predicate Listed(grants: Grants, listed: seq<GrantRow>) {
    forall g :: g in listed ==> g.fields.id in grants && grants[g.fields.id] == g
  }

  /** The request names no challenge, or the one that was read and, if its answer was valid, marked. */
  predicate Answers(looked: Option<Looked>, q: Inquiry) {
    match q.challengeId
    case None => looked.None?
    case Some(id) =>
      && looked.Some? && looked.value.call.id == id && looked.value.answer == q.challenge
      && (q.challenge.Valid? ==> looked.value.marked)
  }

  /** A request without its required challenge is decided at once; any other after its evaluation. */
  predicate Decidable(k: Session, q: Inquiry) {
    if RequiredMissing(q) then k.Attempting?
    else k.Evaluated? && q.policy == k.policy && q.grants == k.grants && Answers(k.looked, q)
  }

  predicate Enabled(s: State, step: Step) {
    match step
    case Start(w, id) => SessionOf(s, w).Idle? && id !in s.used
    case Evaluate(w, policy, grants) =>
      SessionOf(s, w).Attempting? && ApprovesEligible(policy, grants) && Listed(s.db.grants, grants)
    case Look(w, _) => SessionOf(s, w).Evaluated? && SessionOf(s, w).looked.None?
    case Mark(w) => MayMark(SessionOf(s, w))
    case Decide(w, q, _) => Decidable(SessionOf(s, w), q)
    case Consume(w) =>
      At(s, w, Begun) && (Consumes(SessionOf(s, w).result) ==> !Locked(s, SessionOf(s, w).result.matchedGrantId.value))
    case Record(w) => At(s, w, Used)
    case Audit(w, id) => At(s, w, Recorded) && id !in s.used
    case Link(w) => At(s, w, Audited) && SessionOf(s, w).eventId.Some?
    case Commit(w, _) => At(s, w, Linked)
    case Fail(w) => Tries(SessionOf(s, w))
    case RecordFailure(w, id, _) => SessionOf(s, w).Failing? && id !in s.used
    case GiveUp(w) => SessionOf(s, w).Failing?
    case Return(w) => SessionOf(s, w).Done?
    case Issue(create) => create.Create?
    case Administer(op) =>
      match op
      case Create(row) => row.fields.id !in s.db.grants
      case Revoke(id, _, _, _) => !Locked(s, id)
      case Renew(id, _, _, _, _) => !Locked(s, id)
      case TryConsumeUse(_) => false
  }

  /** Between its start and its end. */
  predicate Tries(k: Session) {
    k.Attempting? || k.Evaluated? || k.InTx?
  }

  predicate MayMark(k: Session) {
    k.Evaluated? && k.looked.Some? && k.looked.value.answer.Valid? && !k.looked.value.marked
  }

  /** UPDATE challenges SET used_at = ?, status = 'used' WHERE id = ? */
  function AfterMark(challenges: Challenges.Store, call: Challenges.Call): Challenges.Store {
    if call.id in challenges then challenges[call.id := Challenges.Marked(challenges[call.id], call.usedAt)] else challenges
  }

  function Merge<V>(a: map<string, V>, b: map<string, V>): map<string, V> {
    a + b
  }

  /** The grant id that the execution object carries when the session fails. */
  function CarriedGrant(k: Session): Option<string> {
    if k.InTx? && k.stage != Begun then k.result.matchedGrantId else None
  }

  function AfterConsume(s: State, k: Session): Session
    requires k.InTx?
  {
    if Consumes(k.result) && Applies(s.db.grants, TryConsumeUse(k.result.matchedGrantId.value))
    then k.(stage := Used, pending := k.pending.(held := k.result.matchedGrantId))
    else k.(stage := Used, result := Settled(s.db.grants, k.result))
  }

  /** Installing the pending writes; the locked row is the committed one, plus one use. */
  function Install(db: Db, p: Pending): Db {
    Db(if p.held.Some? then After(db.grants, TryConsumeUse(p.held.value)) else db.grants,
       Merge(db.executions, p.executions), Merge(db.events, p.events))
  }

  function Put(s: State, w: int, k: Session): State {
    s.(sessions := s.sessions[w := k])
  }

  function Next(s: State, step: Step): State
    requires Enabled(s, step)
  {
    match step
    case Start(w, id) => Put(s, w, Attempting(id)).(used := s.used + {id})
    case Evaluate(w, policy, grants) => Put(s, w, Evaluated(SessionOf(s, w).execId, policy, grants, None))
    case Look(w, call) =>
      Put(s, w, SessionOf(s, w).(looked := Some(Looked(call, Challenges.Decide(s.challenges, call), false))))
    case Mark(w) =>
      var k := SessionOf(s, w);
      Put(s, w, k.(looked := Some(k.looked.value.(marked := true)))).(challenges := AfterMark(s.challenges, k.looked.value.call))
    case Decide(w, q, verify) =>
      Put(s, w, InTx(SessionOf(s, w).execId, Judged(q, verify), Judged(q, verify), Begun, None, EMPTY))
    case Consume(w) => Put(s, w, AfterConsume(s, SessionOf(s, w)))
    case Record(w) =>
      var k := SessionOf(s, w);
      Put(s, w, k.(stage := Recorded, pending := k.pending.(executions := k.pending.executions[k.execId := RowOf(k.result, None)])))
    case Audit(w, id) =>
      var k := SessionOf(s, w);
      Put(s, w, k.(stage := Audited, eventId := Some(id), pending := k.pending.(events := k.pending.events[id := EventOf(k.result)])))
        .(used := s.used + {id})
    case Link(w) =>
      var k := SessionOf(s, w);
      var rows := k.pending.executions;
      Put(s, w, k.(stage := Linked, pending := k.pending.(executions :=
        if k.execId in rows then rows[k.execId := rows[k.execId].(auditEventId := k.eventId)] else rows)))
    case Commit(w, acknowledged) =>
      var k := SessionOf(s, w);
      Put(s, w, if acknowledged then Done(Answered(k.result.approved, false, k.execId, k.eventId)) else Failing(CarriedGrant(k)))
        .(db := Install(s.db, k.pending))
    case Fail(w) => Put(s, w, Failing(CarriedGrant(SessionOf(s, w))))
    case RecordFailure(w, id, acknowledged) =>
      Put(s, w, if acknowledged then Done(Answered(false, true, id, None)) else Done(Raised))
        .(db := WithFailure(s.db, id, SessionOf(s, w).grantId), used := s.used + {id})
    case GiveUp(w) => Put(s, w, Done(Raised))
    case Return(w) => Put(s, w, Idle)
    case Administer(op) =>
      var grants := After(s.db.grants, op);
      s.(db := s.db.(grants := grants),
         initial := if op.Create? && Applies(s.db.grants, op) then s.initial[op.row.fields.id := op.row.useCount] else s.initial)
    case Issue(create) => s.(challenges := Challenges.Step(s.challenges, create))
  }

  /** A database without decisions. */
  function Init(grants: Grants): State {
    State(Db(grants, map[], map[]), map[], {}, map id | id in grants :: grants[id].useCount, map[])
  }

  ghost predicate Run(grants: Grants, steps: seq<Step>, states: seq<State>) {
    && |states| == |steps| + 1 && states[0] == Init(grants)
    && forall i :: 0 <= i < |steps| ==> Enabled(states[i], steps[i]) && states[i + 1] == Next(states[i], steps[i])
  }

  // ---- what every state satisfies ----

  /** The shape of a transaction at each stage. */
  predicate WellFormed(k: Session) {
    k.InTx? ==>
      && k.pending.held == (if k.stage != Begun && Consumes(k.result) then k.result.matchedGrantId else None)
      && k.pending.executions == (match k.stage
           case Begun => map[]
           case Used => map[]
           case Linked => map[k.execId := RowOf(k.result, k.eventId)]
           case _ => map[k.execId := RowOf(k.result, None)])
      && (k.eventId.Some? <==> k.stage.Audited? || k.stage.Linked?)
      && k.pending.events == (if k.eventId.Some? then map[k.eventId.value := EventOf(k.result)] else map[])
  }

  /** What was listed is still there.  The result in hand is the judged one, or its use was refused and would still be refused. */
  predicate Settling(grants: Grants, k: Session) {
    && (k.Evaluated? ==> ApprovesEligible(k.policy, k.grants) && forall g :: g in k.grants ==> g.fields.id in grants)
    && (k.InTx? ==>
      && (Consumes(k.judged) ==> k.judged.matchedGrantId.value in grants)
      && (k.result == k.judged || (k.stage != Begun && Refused(grants, k.judged) && k.result == Exhausted(k.judged))))
  }

  predicate Refused(grants: Grants, judged: PolicyResult) {
    Consumes(judged) && !Applies(grants, TryConsumeUse(judged.matchedGrantId.value))
  }

  /** The identifiers a running handler owns. */
  function Owned(k: Session): set<string> {
    match k
    case Attempting(id) => {id}
    case Evaluated(id, _, _, _) => {id}
    case InTx(id, _, _, _, eventId, _) => {id} + (if eventId.Some? then {eventId.value} else {})
    case _ => {}
  }

  predicate TwoIds(k: Session) {
    k.InTx? && k.eventId.Some? ==> k.execId != k.eventId.value
  }

  function Ids(db: Db): set<string> {
    db.executions.Keys + db.events.Keys
  }

  /** Identifiers are used once. */
  ghost predicate Distinct(s: State) {
    && Ids(s.db) <= s.used
    && (forall w :: w in s.sessions ==> Owned(s.sessions[w]) <= s.used)
    && (forall w :: w in s.sessions ==> Owned(s.sessions[w]) !! Ids(s.db))
    && (forall v, w :: v in s.sessions && w in s.sessions && v != w ==> Owned(s.sessions[v]) !! Owned(s.sessions[w]))
    && (forall w :: w in s.sessions ==> TwoIds(s.sessions[w]))
  }

  /** A use that is held was available when it was taken, and nobody else holds that row. */
  ghost predicate Locks(s: State) {
    && (forall w, id :: w in s.sessions && Holds(s.sessions[w], id) ==> Applies(s.db.grants, TryConsumeUse(id)))
    && (forall v, w, id :: v in s.sessions && w in s.sessions && Holds(s.sessions[v], id) && Holds(s.sessions[w], id) ==> v == w)
  }

  predicate SameEvent(d: Execution, e: Execution) {
    d.auditEventId.Some? && d.auditEventId == e.auditEventId
  }

  predicate TookUse(e: Execution) {
    e.result.Succeeded? && e.grantId.Some? && e.grantId.value != ""
  }

  /** Each decision row has an event, which says the same. */
  ghost predicate DecisionsHaveEvents(db: Db) {
    forall e :: e in db.executions && !db.executions[e].result.Failed? ==>
      var row := db.executions[e];
      && row.auditEventId.Some? && row.auditEventId.value in db.events
      && db.events[row.auditEventId.value].approved == row.result.Succeeded?
      && db.events[row.auditEventId.value].matchedGrantId == row.grantId
  }

  ghost predicate FailuresHaveNone(db: Db) {
    forall e :: e in db.executions && db.executions[e].result.Failed? ==> db.executions[e].auditEventId.None?
  }

  ghost predicate OneEventEach(db: Db) {
    forall d, e :: d in db.executions && e in db.executions && SameEvent(db.executions[d], db.executions[e]) ==> d == e
  }

  ghost predicate EventsHaveRows(db: Db) {
    forall v :: v in db.events ==> exists e :: e in db.executions && db.executions[e].auditEventId == Some(v)
  }

  /** Decision rows and events correspond one to one and agree; failure records have no event. */
  ghost predicate Linkage(db: Db) {
    DecisionsHaveEvents(db) && FailuresHaveNone(db) && OneEventEach(db) && EventsHaveRows(db)
  }

  function SucceededOn(executions: map<string, Execution>, id: string): set<string> {
    set e | e in executions && executions[e].result.Succeeded? && executions[e].grantId == Some(id)
  }

  /** use_count = initial value + succeeded executions, and never above the maximum. */
  ghost predicate Uses(db: Db, initial: map<string, int>) {
    && (forall id :: id in db.grants ==> id in initial)
    && (forall id :: id in db.grants && id != "" ==>
          db.grants[id].useCount == initial[id] + |SucceededOn(db.executions, id)|)
    && (forall id :: id in db.grants ==>
          NotExceeded(db.grants[id].(useCount := initial[id])) ==> NotExceeded(db.grants[id]))
    && (forall e :: e in db.executions && TookUse(db.executions[e]) ==> db.executions[e].grantId.value in db.grants)
  }

  predicate NotExceeded(row: GrantRow) {
    row.maxUses.Some? ==> row.useCount <= row.maxUses.value
  }

  /** An answer tells what is in the database. */
  predicate Witnessed(db: Db, a: Answer) {
    a.Answered? ==>
      && a.executionId in db.executions
      && var row := db.executions[a.executionId];
      && row.auditEventId == a.eventId
      && (a.failed <==> row.result.Failed?) && (a.approved <==> row.result.Succeeded?)
  }

  ghost predicate Inv(s: State) {
    && (forall w :: w in s.sessions ==> WellFormed(s.sessions[w]))
    && (forall w :: w in s.sessions ==> Settling(s.db.grants, s.sessions[w]))
    && Distinct(s) && Locks(s) && Linkage(s.db) && Uses(s.db, s.initial)
    && (forall w :: w in s.sessions && s.sessions[w].Done? ==> Witnessed(s.db, s.sessions[w].answer))
  }

  // ---- every step keeps it ----

  /** A step of a handler. */
  predicate IsLocal(step: Step) {
    !step.Administer? && !step.Issue?
  }

  /** It changes no other handler's session. */
  lemma StepIsLocal(s: State, step: Step)
    requires Enabled(s, step)
    ensures var t := Next(s, step);
      if IsLocal(step) then step.w in t.sessions && t.sessions == s.sessions[step.w := SessionOf(t, step.w)]
      else t.sessions == s.sessions
  {
    hide Locked, Listed, ApprovesEligible, Decidable, At, RowOf, EventOf, CarriedGrant, AfterConsume, Judged, Install, WithFailure;
    hide After, Applies, Challenges.Decide, Challenges.Step, AfterMark;
  }

  predicate Writes(step: Step) {
    step.Commit? || step.RecordFailure? || step.Administer?
  }

  /** The other steps leave the committed tables alone. */
  lemma OthersWriteNothing(s: State, step: Step)
    requires Enabled(s, step) && !Writes(step)
    ensures Next(s, step).db == s.db && Next(s, step).initial == s.initial
  {
    hide Locked, Listed, ApprovesEligible, Decidable, At, RowOf, EventOf, CarriedGrant, AfterConsume, Judged;
    hide Challenges.Decide, Challenges.Step, AfterMark;
  }

  lemma ConsumedShape(s: State, w: int)
    requires WellFormed(SessionOf(s, w)) && At(s, w, Begun)
    ensures WellFormed(AfterConsume(s, SessionOf(s, w)))
  {
    hide Applies, RowOf, EventOf;
  }

  lemma RecordedShape(s: State, w: int)
    requires WellFormed(SessionOf(s, w)) && Enabled(s, Record(w))
    ensures WellFormed(SessionOf(Next(s, Record(w)), w))
  {
    hide RowOf, EventOf, Consumes;
  }

  lemma AuditedShape(s: State, w: int, id: string)
    requires WellFormed(SessionOf(s, w)) && Enabled(s, Audit(w, id))
    ensures WellFormed(SessionOf(Next(s, Audit(w, id)), w))
  {
    hide RowOf, EventOf, Consumes;
  }

  lemma LinkedShape(s: State, w: int)
    requires WellFormed(SessionOf(s, w)) && Enabled(s, Link(w))
    ensures WellFormed(SessionOf(Next(s, Link(w)), w))
  {
    var k := SessionOf(s, w);
    assert RowOf(k.result, None).(auditEventId := k.eventId) == RowOf(k.result, k.eventId);
    hide RowOf, EventOf, Consumes;
  }

  lemma OwnShape(s: State, step: Step)
    requires Enabled(s, step) && IsLocal(step) && WellFormed(SessionOf(s, step.w))
    ensures WellFormed(SessionOf(Next(s, step), step.w))
  {
    hide After, Applies, Locked, Install, WithFailure, Judged, Listed, ApprovesEligible, Decidable, CarriedGrant;
    hide Challenges.Decide, Challenges.Step, AfterMark, AfterConsume, RowOf, EventOf, Consumes;
    match step {
      case Consume(w) => ConsumedShape(s, w); hide WellFormed;
      case Record(w) => RecordedShape(s, w); hide WellFormed;
      case Audit(w, id) => AuditedShape(s, w, id); hide WellFormed;
      case Link(w) => LinkedShape(s, w); hide WellFormed;
      case _ =>
    }
  }

  lemma ShapeOf(s: State, w: int)
    requires Inv(s)
    ensures WellFormed(SessionOf(s, w))
  {
    hide Settling, Distinct, Locks, Linkage, Uses, Witnessed;
  }

  lemma StepKeepsShapes(s: State, step: Step)
    requires Inv(s) && Enabled(s, step)
    ensures forall w :: w in Next(s, step).sessions ==> WellFormed(Next(s, step).sessions[w])
  {
    hide Next, Enabled, WellFormed, Settling, Distinct, Locks, Linkage, Uses, Witnessed;
    StepIsLocal(s, step);
    if IsLocal(step) {
      ShapeOf(s, step.w);
      OwnShape(s, step);
    }
  }

  /** Session w passes on only what it owned, or what is added. */
  lemma DistinctAfter(s: State, t: State, w: int, added: set<string>)
    requires Distinct(s) && w in t.sessions && t.sessions == s.sessions[w := t.sessions[w]]
    requires s.used + added <= t.used && added !! s.used
    requires Owned(t.sessions[w]) <= Owned(SessionOf(s, w)) + added && TwoIds(t.sessions[w])
    requires Ids(t.db) <= Ids(s.db) + Owned(SessionOf(s, w)) + added && Owned(t.sessions[w]) !! Ids(t.db)
    ensures Distinct(t)
  {
    assert w !in s.sessions ==> Owned(SessionOf(s, w)) == {};
    hide TwoIds, Owned, Ids;
  }

  lemma InstallKeys(db: Db, k: Session)
    requires k.InTx? && k.stage.Linked? && WellFormed(k)
    ensures Ids(Install(db, k.pending)) == Ids(db) + Owned(k)
  {
    hide After, RowOf, EventOf, Consumes;
  }

  lemma CommitKeepsDistinct(s: State, w: int, acknowledged: bool)
    requires Inv(s) && At(s, w, Linked)
    ensures Distinct(Next(s, Commit(w, acknowledged)))
  {
    hide Locks, Linkage, Uses, Witnessed;
    InstallKeys(s.db, SessionOf(s, w));
    hide WellFormed, Install, Ids, CarriedGrant;
    DistinctAfter(s, Next(s, Commit(w, acknowledged)), w, {});
  }

  /** The steps that neither write to the database nor take an identifier. */
  predicate Quiet(step: Step) {
    || step.Evaluate? || step.Look? || step.Mark? || step.Decide? || step.Consume? || step.Record? || step.Link?
    || step.Fail? || step.GiveUp? || step.Return?
  }

  lemma QuietKeepsDistinct(s: State, step: Step)
    requires Distinct(s) && Enabled(s, step) && Quiet(step)
    ensures Distinct(Next(s, step))
  {
    hide Applies, Locked, CarriedGrant, Settled, RowOf;
    assert Owned(Next(s, step).sessions[step.w]) <= Owned(SessionOf(s, step.w));
    assert TwoIds(Next(s, step).sessions[step.w]);
    hide Owned, TwoIds, Ids;
    DistinctAfter(s, Next(s, step), step.w, {});
  }

  lemma StepKeepsDistinct(s: State, step: Step)
    requires Inv(s) && Enabled(s, step)
    ensures Distinct(Next(s, step))
  {
    hide Locks, Linkage, Uses, Witnessed, WellFormed, After, Applies, Locked;
    match step {
      case Start(w, id) => hide Distinct, Ids; DistinctAfter(s, Next(s, step), w, {id});
      case Audit(w, id) => hide Ids; DistinctAfter(s, Next(s, step), w, {id});
      case RecordFailure(w, id, _) => DistinctAfter(s, Next(s, step), w, {id});
      case Commit(w, acknowledged) => CommitKeepsDistinct(s, w, acknowledged); hide Distinct, Next;
      case Administer(op) =>
      case Issue(_) =>
      case _ => QuietKeepsDistinct(s, step); hide Distinct, Next;
    }
  }

  lemma CommitKeepsLocks(s: State, w: int, acknowledged: bool)
    requires Inv(s) && At(s, w, Linked)
    ensures Locks(Next(s, Commit(w, acknowledged)))
  {
    hide Distinct, Linkage, Uses, Witnessed, CarriedGrant, Merge, WellFormed;
  }

  lemma ConsumeKeepsLocks(s: State, w: int)
    requires Inv(s) && Enabled(s, Consume(w))
    ensures Locks(Next(s, Consume(w)))
  {
    hide Distinct, Linkage, Uses, Witnessed, Applies;
  }

  lemma AdministerKeepsLocks(s: State, op: GrantRepository.Operation)
    requires Inv(s) && Enabled(s, Administer(op))
    ensures Locks(Next(s, Administer(op)))
  {
    hide Distinct, Linkage, Uses, Witnessed, WellFormed;
  }

  lemma StepKeepsLocks(s: State, step: Step)
    requires Inv(s) && Enabled(s, step)
    ensures Locks(Next(s, step))
  {
    hide Distinct, Linkage, Uses, Witnessed;
    match step {
      case Commit(w, acknowledged) => CommitKeepsLocks(s, w, acknowledged); hide Locks, Next;
      case Consume(w) => ConsumeKeepsLocks(s, w); hide Locks, Next;
      case Administer(op) => AdministerKeepsLocks(s, op); hide Locks, Next;
      case _ => OtherStepKeepsLocks(s, step); hide Locks, Next;
    }
  }

  lemma NoNewHold(s: State, step: Step, id: string)
    requires Enabled(s, step) && IsLocal(step) && !step.Consume? && Holds(SessionOf(Next(s, step), step.w), id)
    ensures Holds(SessionOf(s, step.w), id)
  {
    hide Locked, Applies, After, CarriedGrant, RowOf, EventOf, Install, WithFailure, Judged, Listed, ApprovesEligible, Decidable;
    hide Challenges.Decide, Challenges.Step, AfterMark;
  }

  /** Locks hold on when no session holds more than before and the grants stay. */
  lemma FewerHolds(s: State, t: State)
    requires Locks(s) && t.db.grants == s.db.grants
    requires forall w, id :: w in t.sessions && Holds(t.sessions[w], id) ==> w in s.sessions && Holds(s.sessions[w], id)
    ensures Locks(t)
  {
    hide Applies, Holds;
  }

  lemma OtherStepKeepsLocks(s: State, step: Step)
    requires Inv(s) && Enabled(s, step) && !step.Commit? && !step.Consume? && !step.Administer?
    ensures Locks(Next(s, step))
  {
    StepIsLocal(s, step);
    var t := Next(s, step);
    assert t.db.grants == s.db.grants by {
      if !Writes(step) { OthersWriteNothing(s, step); }
      hide Challenges.Step, Challenges.Decide, RowOf, EventOf, Judged, Inv;
    }
    hide Next, Enabled, Distinct, Locks, Linkage, Uses, Witnessed, WellFormed, Settling;
    forall w, id | w in t.sessions && Holds(t.sessions[w], id) ensures w in s.sessions && Holds(s.sessions[w], id) {
      if IsLocal(step) && w == step.w { NoNewHold(s, step, id); }
    }
    FewerHolds(s, t);
  }

  /** No grant is lost, and a use that is refused stays refused. */
  ghost predicate Wears(earlier: Grants, later: Grants) {
    && earlier.Keys <= later.Keys
    && forall id :: id in earlier && !Applies(earlier, TryConsumeUse(id)) ==> !Applies(later, TryConsumeUse(id))
  }

  lemma StepWears(s: State, step: Step)
    requires Enabled(s, step)
    ensures Wears(s.db.grants, Next(s, step).db.grants)
  {
    hide Locked, At, CarriedGrant, RowOf, EventOf, AfterConsume, Merge, FailedRow;
  }

  lemma SettlingStays(earlier: Grants, later: Grants, k: Session)
    requires Wears(earlier, later) && Settling(earlier, k)
    ensures Settling(later, k)
  {
    hide Applies;
  }

  lemma SettlingOf(s: State, w: int)
    requires Inv(s)
    ensures Settling(s.db.grants, SessionOf(s, w))
  {
    hide WellFormed, Distinct, Locks, Linkage, Uses, Witnessed;
  }

  lemma OwnSettling(s: State, step: Step)
    requires Enabled(s, step) && IsLocal(step) && Settling(s.db.grants, SessionOf(s, step.w))
    ensures Settling(Next(s, step).db.grants, SessionOf(Next(s, step), step.w))
  {
    hide Judged, Locked, RowOf, EventOf, CarriedGrant, Install, After, Applies, WithFailure, Challenges.Decide, Challenges.Step, AfterMark;
    if Writes(step) {
      hide Settling;
      NoTransactionSettles(Next(s, step).db.grants, SessionOf(Next(s, step), step.w));
    } else {
      OthersWriteNothing(s, step);
      if step.Decide? { JudgedApproved(step.inquiry, step.verify); }
    }
  }

  lemma NoTransactionSettles(grants: Grants, k: Session)
    requires !k.InTx? && !k.Evaluated?
    ensures Settling(grants, k)
  {
  }

  lemma StepKeepsSettling(s: State, step: Step)
    requires Inv(s) && Enabled(s, step)
    ensures forall w :: w in Next(s, step).sessions ==> Settling(Next(s, step).db.grants, Next(s, step).sessions[w])
  {
    hide Next, Enabled, Distinct, Locks, Linkage, Uses, Witnessed, WellFormed, Settling, Wears;
    StepIsLocal(s, step);
    StepWears(s, step);
    var t := Next(s, step);
    if IsLocal(step) {
      SettlingOf(s, step.w);
      OwnSettling(s, step);
    }
    forall w | w in t.sessions ensures Settling(t.db.grants, t.sessions[w]) {
      if w in s.sessions && t.sessions[w] == s.sessions[w] { SettlingStays(s.db.grants, t.db.grants, s.sessions[w]); }
    }
  }

  /** Whatever the interleaving, a commit has exactly the effect of one whole decision on the database
      as it stands at that moment. */
  lemma CommitIsOneDecision(s: State, w: int)
    requires Inv(s) && At(s, w, Linked)
    ensures var k := SessionOf(s, w);
      k.eventId.Some? && Install(s.db, k.pending) == Written(s.db, k.execId, k.eventId.value, k.judged)
  {
    LinkedIsSettled(s, w);
    assert WellFormed(SessionOf(s, w));
    hide Inv, WellFormed, Install, Written, Settled;
    InstallIsWritten(s.db, SessionOf(s, w));
  }

  lemma InstallIsWritten(db: Db, k: Session)
    requires k.InTx? && k.stage.Linked? && WellFormed(k) && Settled(db.grants, k.judged) == k.result
    ensures k.eventId.Some? && Install(db, k.pending) == Written(db, k.execId, k.eventId.value, k.judged)
  {
    hide After, RowOf, EventOf, Settled;
    assert Merge(db.executions, k.pending.executions) == db.executions[k.execId := RowOf(k.result, k.eventId)];
    assert Merge(db.events, k.pending.events) == db.events[k.eventId.value := EventOf(k.result)];
  }

  lemma LinkedIsSettled(s: State, w: int)
    requires Inv(s) && At(s, w, Linked)
    ensures Settled(s.db.grants, SessionOf(s, w).judged) == SessionOf(s, w).result
  {
    hide Distinct, Linkage, Uses, Witnessed;
    var k := SessionOf(s, w);
    if Consumes(k.result) {
      assert Holds(s.sessions[w], k.result.matchedGrantId.value);
    }
    hide Applies, RowOf, EventOf;
  }

  lemma WrittenKeepsLinkage(db: Db, execId: string, eventId: string, judged: PolicyResult)
    requires Linkage(db) && execId !in db.executions && eventId !in db.events
    ensures Linkage(Written(db, execId, eventId, judged))
  {
    hide After, Settled, Consumes;
    var next := Written(db, execId, eventId, judged);
    assert DecisionsHaveEvents(next) && FailuresHaveNone(next) && OneEventEach(next);
    hide DecisionsHaveEvents, FailuresHaveNone, OneEventEach;
    forall v | v in next.events ensures exists e :: e in next.executions && next.executions[e].auditEventId == Some(v) {
      if v == eventId {
        assert next.executions[execId].auditEventId == Some(v);
      } else {
        var e :| e in db.executions && db.executions[e].auditEventId == Some(v);
        assert next.executions[e].auditEventId == Some(v);
      }
    }
  }

  lemma FailureKeepsLinkage(db: Db, id: string, grantId: Option<string>)
    requires Linkage(db) && id !in db.executions
    ensures Linkage(WithFailure(db, id, grantId))
  {
    var next := WithFailure(db, id, grantId);
    assert DecisionsHaveEvents(next) && FailuresHaveNone(next) && OneEventEach(next);
    hide DecisionsHaveEvents, FailuresHaveNone, OneEventEach;
    forall v | v in next.events ensures exists e :: e in next.executions && next.executions[e].auditEventId == Some(v) {
      var e :| e in db.executions && db.executions[e].auditEventId == Some(v);
      assert next.executions[e].auditEventId == Some(v);
    }
  }

  lemma LinkageIgnoresGrants(db: Db, grants: Grants)
    requires Linkage(db)
    ensures Linkage(db.(grants := grants))
  {
    var next := db.(grants := grants);
    assert DecisionsHaveEvents(next) && FailuresHaveNone(next) && OneEventEach(next);
    hide DecisionsHaveEvents, FailuresHaveNone, OneEventEach;
  }

  lemma StepKeepsLinkage(s: State, step: Step)
    requires Inv(s) && Enabled(s, step)
    ensures Linkage(Next(s, step).db)
  {
    if step.Commit? {
      CommitKeepsLinkage(s, step.w, step.acknowledged);
    } else if step.RecordFailure? {
      hide Linkage, Locks, Uses, Witnessed, WellFormed, WithFailure;
      FailureKeepsLinkage(s.db, step.failureId, SessionOf(s, step.w).grantId);
    } else if step.Administer? {
      hide Distinct, Linkage, Locks, Uses, Witnessed, WellFormed, Settling, After, Applies, Locked;
      LinkageIgnoresGrants(s.db, After(s.db.grants, step.op));
    } else {
      OthersWriteNothing(s, step);
      hide Next, Enabled, Distinct, Locks, Linkage, Uses, Witnessed, WellFormed, Settling;
    }
    hide Next, Enabled, Inv, Linkage;
  }

  lemma CommitKeepsLinkage(s: State, w: int, acknowledged: bool)
    requires Inv(s) && At(s, w, Linked)
    ensures Linkage(Next(s, Commit(w, acknowledged)).db)
  {
    CommittedDb(s, w, acknowledged);
    CommitIsFresh(s, w);
    hide Next, Linkage, Locks, Uses, Witnessed, WellFormed, Settling, Distinct, Written, CarriedGrant;
    var k := SessionOf(s, w);
    WrittenKeepsLinkage(s.db, k.execId, k.eventId.value, k.judged);
  }

  /** No row has the identifiers that a commit is about to add. */
  lemma CommitIsFresh(s: State, w: int)
    requires Inv(s) && At(s, w, Linked)
    ensures var k := SessionOf(s, w);
      k.eventId.Some? && k.execId !in s.db.executions && k.eventId.value !in s.db.events
  {
    hide Locks, Linkage, Uses, Witnessed, Settling;
    var k := SessionOf(s, w);
    assert k.execId in Owned(k) && k.eventId.value in Owned(k);
  }

  lemma SucceededGrows(executions: map<string, Execution>, execId: string, row: Execution, id: string)
    requires execId !in executions
    ensures var next := executions[execId := row];
      |SucceededOn(next, id)| == |SucceededOn(executions, id)| + (if row.result.Succeeded? && row.grantId == Some(id) then 1 else 0)
  {
    var next := executions[execId := row];
    var counted := row.result.Succeeded? && row.grantId == Some(id);
    assert SucceededOn(next, id) == SucceededOn(executions, id) + (if counted then {execId} else {});
  }

  lemma ConsumedKeepsUses(db: Db, initial: map<string, int>, execId: string, row: Execution)
    requires Uses(db, initial) && execId !in db.executions && TookUse(row)
    requires Applies(db.grants, TryConsumeUse(row.grantId.value))
    ensures Uses(db.(grants := After(db.grants, TryConsumeUse(row.grantId.value)), executions := db.executions[execId := row]), initial)
  {
    forall id ensures |SucceededOn(db.executions[execId := row], id)| == |SucceededOn(db.executions, id)| + (if row.grantId == Some(id) then 1 else 0) {
      SucceededGrows(db.executions, execId, row, id);
    }
    hide SucceededOn;
  }

  lemma RecordedKeepsUses(db: Db, initial: map<string, int>, execId: string, row: Execution)
    requires Uses(db, initial) && execId !in db.executions && !TookUse(row)
    ensures Uses(db.(executions := db.executions[execId := row]), initial)
  {
    forall id | id != "" ensures |SucceededOn(db.executions[execId := row], id)| == |SucceededOn(db.executions, id)| {
      SucceededGrows(db.executions, execId, row, id);
    }
    hide SucceededOn;
  }

  lemma WrittenKeepsUses(db: Db, initial: map<string, int>, execId: string, eventId: string, judged: PolicyResult)
    requires Uses(db, initial) && execId !in db.executions
    ensures Uses(Written(db, execId, eventId, judged), initial)
  {
    var r := Settled(db.grants, judged);
    var row := RowOf(r, Some(eventId));
    if TookUse(row) {
      ConsumedKeepsUses(db, initial, execId, row);
    } else {
      RecordedKeepsUses(db, initial, execId, row);
    }
    hide After, Applies, SucceededOn;
  }

  lemma FailureKeepsUses(db: Db, initial: map<string, int>, failureId: string, grantId: Option<string>)
    requires Uses(db, initial) && failureId !in db.executions
    ensures Uses(WithFailure(db, failureId, grantId), initial)
  {
    RecordedKeepsUses(db, initial, failureId, FailedRow(grantId));
  }

  lemma AdministerKeepsUses(s: State, op: GrantRepository.Operation)
    requires Uses(s.db, s.initial) && Enabled(s, Administer(op))
    ensures Uses(Next(s, Administer(op)).db, Next(s, Administer(op)).initial)
  {
    if op.Create? {
      CreateKeepsUses(s.db, s.initial, op.row);
    } else {
      UpdateKeepsUses(s.db, s.initial, op);
    }
    hide Uses, After, Applies, Locked;
  }

  lemma UpdateKeepsUses(db: Db, initial: map<string, int>, op: GrantRepository.Operation)
    requires Uses(db, initial) && (op.Revoke? || op.Renew?)
    ensures Uses(db.(grants := After(db.grants, op)), initial)
  {
    hide SucceededOn;
  }

  lemma CreateKeepsUses(db: Db, initial: map<string, int>, row: GrantRow)
    requires Uses(db, initial) && row.fields.id !in db.grants
    ensures var op := Create(row);
      Uses(db.(grants := After(db.grants, op)), if Applies(db.grants, op) then initial[row.fields.id := row.useCount] else initial)
  {
    assert row.fields.id != "" ==> SucceededOn(db.executions, row.fields.id) == {};
    hide SucceededOn;
  }

  lemma StepKeepsUses(s: State, step: Step)
    requires Inv(s) && Enabled(s, step)
    ensures Uses(Next(s, step).db, Next(s, step).initial)
  {
    if step.Commit? {
      CommitKeepsUses(s, step.w, step.acknowledged);
    } else if step.RecordFailure? {
      hide Linkage, Locks, Uses, Witnessed, WellFormed, WithFailure;
      FailureKeepsUses(s.db, s.initial, step.failureId, SessionOf(s, step.w).grantId);
    } else if step.Administer? {
      AdministerKeepsUses(s, step.op);
    } else {
      OthersWriteNothing(s, step);
      hide Next, Enabled, Distinct, Locks, Linkage, Uses, Witnessed, WellFormed, Settling;
    }
    hide Next, Enabled, Inv, Uses;
  }

  lemma CommitKeepsUses(s: State, w: int, acknowledged: bool)
    requires Inv(s) && At(s, w, Linked)
    ensures var t := Next(s, Commit(w, acknowledged)); Uses(t.db, t.initial)
  {
    CommittedDb(s, w, acknowledged);
    CommitIsFresh(s, w);
    hide Next, Linkage, Locks, Uses, Witnessed, WellFormed, Settling, Distinct, Written, CarriedGrant;
    var k := SessionOf(s, w);
    WrittenKeepsUses(s.db, s.initial, k.execId, k.eventId.value, k.judged);
  }

  /** An answer is given with its rows. */
  lemma NewAnswer(s: State, step: Step)
    requires Inv(s) && Enabled(s, step) && IsLocal(step) && SessionOf(Next(s, step), step.w).Done?
    ensures Witnessed(Next(s, step).db, SessionOf(Next(s, step), step.w).answer)
  {
    ShapeOf(s, step.w);
    hide Inv;
    if step.Commit? {
      CommittedAnswer(s, step.w);
      hide Witnessed, WellFormed;
    } else {
      hide After, Applies, Locked, Judged, Listed, ApprovesEligible, Decidable, CarriedGrant, AfterConsume;
      hide Challenges.Decide, Challenges.Step, AfterMark, WellFormed;
    }
  }

  lemma CommittedAnswer(s: State, w: int)
    requires At(s, w, Linked) && WellFormed(SessionOf(s, w))
    ensures var k := SessionOf(s, w);
      Witnessed(Install(s.db, k.pending), Answered(k.result.approved, false, k.execId, k.eventId))
  {
    hide After, Applies, Consumes;
  }

  lemma WitnessStays(earlier: Db, later: Db, a: Answer)
    requires Witnessed(earlier, a) && Extends(later, earlier)
    ensures Witnessed(later, a)
  {
  }

  lemma StepKeepsWitnessed(s: State, step: Step)
    requires Inv(s) && Enabled(s, step)
    ensures forall w :: w in Next(s, step).sessions && Next(s, step).sessions[w].Done? ==>
      Witnessed(Next(s, step).db, Next(s, step).sessions[w].answer)
  {
    hide Next, Enabled, WellFormed, Settling, Distinct, Locks, Linkage, Uses, Witnessed, Extends;
    StepIsLocal(s, step);
    StepExtends(s, step);
    var t := Next(s, step);
    if IsLocal(step) && SessionOf(t, step.w).Done? { NewAnswer(s, step); }
    forall w | w in t.sessions && t.sessions[w].Done? ensures Witnessed(t.db, t.sessions[w].answer) {
      if w in s.sessions && s.sessions[w] == t.sessions[w] { WitnessStays(s.db, t.db, s.sessions[w].answer); }
    }
  }

  // ---- serial equivalence ----

  /** What a step does to the database, as one action of a handler or administrator running alone. */
  datatype Effect =
    | NoEffect
    | Decided(execId: string, eventId: string, judged: PolicyResult)
    | FailureRecorded(failureId: string, grantId: Option<string>)
    | Administered(op: GrantRepository.Operation)

  function EffectOf(s: State, step: Step): Effect
    requires Enabled(s, step)
  {
    match step
    case Commit(w, _) =>
      var k := SessionOf(s, w);
      Decided(k.execId, if k.eventId.Some? then k.eventId.value else "", k.judged)
    case RecordFailure(w, id, _) => FailureRecorded(id, SessionOf(s, w).grantId)
    case Administer(op) => Administered(op)
    case _ => NoEffect
  }

  function Apply(db: Db, e: Effect): Db {
    match e
    case NoEffect => db
    case Decided(execId, eventId, judged) => Written(db, execId, eventId, judged)
    case FailureRecorded(id, grantId) => WithFailure(db, id, grantId)
    case Administered(op) => db.(grants := After(db.grants, op))
  }

  lemma StepIsItsEffect(s: State, step: Step)
    requires Inv(s) && Enabled(s, step)
    ensures Next(s, step).db == Apply(s.db, EffectOf(s, step))
  {
    if step.Commit? {
      CommitIsOneDecision(s, step.w);
      hide Written, Install, Inv, CarriedGrant;
    } else if !Writes(step) {
      OthersWriteNothing(s, step);
      hide Next, Enabled, Inv;
    } else {
      hide Written, Inv, WithFailure, After, Locked;
    }
  }

  // ---- over whole runs ----

  lemma InitIsSound(grants: Grants)
    ensures Inv(Init(grants))
  {
  }

  lemma StepKeepsInv(s: State, step: Step)
    requires Inv(s) && Enabled(s, step)
    ensures Inv(Next(s, step))
  {
    StepKeepsShapes(s, step);
    StepKeepsSettling(s, step);
    StepKeepsDistinct(s, step);
    StepKeepsLocks(s, step);
    StepKeepsLinkage(s, step);
    StepKeepsUses(s, step);
    StepKeepsWitnessed(s, step);
    hide Next, Enabled, WellFormed, Settling, Distinct, Locks, Linkage, Uses, Witnessed;
  }

  lemma {:induction false} RunKeepsInv(grants: Grants, steps: seq<Step>, states: seq<State>, i: nat)
    requires Run(grants, steps, states) && i <= |steps|
    ensures Inv(states[i])
  {
    hide Inv, Next, Enabled;
    if i == 0 {
      InitIsSound(grants);
    } else {
      RunKeepsInv(grants, steps, states, i - 1);
      StepKeepsInv(states[i - 1], steps[i - 1]);
    }
  }

  /** Nothing that was committed is changed or lost: decision rows, failure records, events. */
  ghost predicate Extends(later: Db, earlier: Db) {
    && (forall e :: e in earlier.executions ==> e in later.executions && later.executions[e] == earlier.executions[e])
    && (forall v :: v in earlier.events ==> v in later.events && later.events[v] == earlier.events[v])
    && earlier.grants.Keys <= later.grants.Keys
  }

  /** The recorded initial use counts of existing grants stay. */
  ghost predicate KeepsInitial(later: State, earlier: State) {
    forall id :: id in earlier.db.grants && id in earlier.initial ==> id in later.initial && later.initial[id] == earlier.initial[id]
  }

  lemma StepKeepsInitial(s: State, step: Step)
    requires Enabled(s, step)
    ensures KeepsInitial(Next(s, step), s)
  {
    if Writes(step) {
      hide Install, WithFailure, After, Locked, At, CarriedGrant, RowOf, EventOf, Listed, ApprovesEligible, Decidable;
      hide Challenges.Decide, Challenges.Step, AfterMark, AfterConsume, Judged;
    } else {
      OthersWriteNothing(s, step);
      hide Next, Enabled;
    }
  }

  /** Decisions and failure records come with identifiers that no row has. */
  predicate IsFresh(db: Db, e: Effect) {
    && (e.Decided? ==> e.execId !in db.executions && e.eventId !in db.events)
    && (e.FailureRecorded? ==> e.failureId !in db.executions && e.failureId !in db.events)
  }

  lemma EffectIsFresh(s: State, step: Step)
    requires Inv(s) && Enabled(s, step)
    ensures IsFresh(s.db, EffectOf(s, step))
  {
    hide Locks, Linkage, Uses, Witnessed, Locked;
    if step.Commit? {
      var k := SessionOf(s, step.w);
      assert k.execId in Owned(k) && k.eventId.value in Owned(k);
    }
  }

  lemma EffectExtends(db: Db, e: Effect)
    requires IsFresh(db, e)
    ensures Extends(Apply(db, e), db)
  {
    hide Settled, Consumes, RowOf, EventOf;
  }

  lemma StepExtends(s: State, step: Step)
    requires Inv(s) && Enabled(s, step)
    ensures Extends(Next(s, step).db, s.db)
  {
    StepIsItsEffect(s, step);
    EffectIsFresh(s, step);
    hide *;
    EffectExtends(s.db, EffectOf(s, step));
  }

  lemma ExtendsTransitive(a: State, b: State, c: State)
    requires Extends(c.db, b.db) && KeepsInitial(c, b) && Extends(b.db, a.db) && KeepsInitial(b, a)
    ensures Extends(c.db, a.db) && KeepsInitial(c, a)
  {
  }

  lemma OneStepStays(grants: Grants, steps: seq<Step>, states: seq<State>, i: nat)
    requires Run(grants, steps, states) && i < |steps|
    ensures Extends(states[i + 1].db, states[i].db) && KeepsInitial(states[i + 1], states[i])
  {
    RunStep(grants, steps, states, i);
    RunKeepsInv(grants, steps, states, i);
    hide Run, Next, Enabled, Inv, Extends, KeepsInitial;
    StepExtends(states[i], steps[i]);
    StepKeepsInitial(states[i], steps[i]);
  }

  lemma {:induction false} CommittedStays(grants: Grants, steps: seq<Step>, states: seq<State>, i: nat, j: nat)
    requires Run(grants, steps, states) && i <= j <= |steps|
    ensures Extends(states[j].db, states[i].db) && KeepsInitial(states[j], states[i])
    decreases j
  {
    hide Next, Enabled, Init, Inv;
    if i < j {
      CommittedStays(grants, steps, states, i, j - 1);
      OneStepStays(grants, steps, states, j - 1);
      ExtendsTransitive(states[i], states[j - 1], states[j]);
      hide Extends, KeepsInitial, Run;
    }
  }

  lemma RunStep(grants: Grants, steps: seq<Step>, states: seq<State>, i: nat)
    requires Run(grants, steps, states) && i < |steps|
    ensures |states| == |steps| + 1 && Enabled(states[i], steps[i]) && states[i + 1] == Next(states[i], steps[i])
  {
    hide Enabled, Next, Init;
  }

  /** The ledger law, for every state that any interleaving of any handlers, failing anywhere, and of
      administrators can reach: decision rows and audit events correspond one to one and agree, failure
      records have no event, and each grant's use count is its initial value plus its succeeded
      executions, never above its maximum. */
  lemma LedgerLaw(grants: Grants, steps: seq<Step>, states: seq<State>, i: nat)
    requires Run(grants, steps, states) && i <= |steps|
    ensures Linkage(states[i].db) && Uses(states[i].db, states[i].initial)
    ensures forall id :: id in grants && id != "" ==>
      && id in states[i].db.grants
      && states[i].db.grants[id].useCount == grants[id].useCount + |SucceededOn(states[i].db.executions, id)|
      && (NotExceeded(states[i].db.grants[id].(useCount := grants[id].useCount)) ==> NotExceeded(states[i].db.grants[id]))
  {
    RunKeepsInv(grants, steps, states, i);
    CommittedStays(grants, steps, states, 0, i);
    hide Next, Enabled, WellFormed, Distinct, Locks, Linkage, Witnessed, SucceededOn, NotExceeded;
  }

  /** An answer that some handler holds is witnessed by its rows, then and at every later moment. */
  lemma AnswersAreWitnessed(grants: Grants, steps: seq<Step>, states: seq<State>, i: nat, j: nat, w: int)
    requires Run(grants, steps, states) && i <= j <= |steps|
    requires SessionOf(states[i], w).Done?
    ensures Witnessed(states[j].db, SessionOf(states[i], w).answer)
  {
    RunKeepsInv(grants, steps, states, i);
    CommittedStays(grants, steps, states, i, j);
    hide Next, Enabled, WellFormed, Distinct, Locks, Linkage, Uses;
  }

  function Replay(db: Db, effects: seq<Effect>): Db {
    if effects == [] then db else Apply(Replay(db, effects[..|effects| - 1]), effects[|effects| - 1])
  }

  /** Every interleaving leaves the database that its actions leave when each runs alone, in the order
      in which they committed. */
  lemma {:induction false} InterleavingIsSerial(grants: Grants, steps: seq<Step>, states: seq<State>, i: nat) returns (effects: seq<Effect>)
    requires Run(grants, steps, states) && i <= |steps|
    ensures |effects| == i && forall j :: 0 <= j < i ==> effects[j] == EffectOf(states[j], steps[j])
    ensures states[i].db == Replay(Db(grants, map[], map[]), effects)
  {
    hide Next, Enabled, Inv, Apply, EffectOf;
    if i == 0 {
      effects := [];
    } else {
      var front := InterleavingIsSerial(grants, steps, states, i - 1);
      RunKeepsInv(grants, steps, states, i - 1);
      StepIsItsEffect(states[i - 1], steps[i - 1]);
      effects := front + [EffectOf(states[i - 1], steps[i - 1])];
      assert effects[..i - 1] == front;
    }
  }

  // ---- the answer that is lost ----

  /** When a commit is applied but its acknowledgement is lost, the handler also records a failure: the
      database then holds the decision, its event and its use, beside a failure record under a fresh id,
      and the caller is told that the attempt failed. */
  lemma LostAcknowledgement(s: State, w: int, failureId: string)
    requires Inv(s) && At(s, w, Linked) && failureId !in s.used
    ensures Enabled(s, Commit(w, false))
    ensures var k := SessionOf(s, w);
      var committed := Next(s, Commit(w, false));
      && Enabled(committed, RecordFailure(w, failureId, true))
      && var after := Next(committed, RecordFailure(w, failureId, true));
      && k.execId != failureId && k.eventId.Some?
      && after.db == WithFailure(Written(s.db, k.execId, k.eventId.value, k.judged), failureId, k.result.matchedGrantId)
      && k.execId in after.db.executions && after.db.executions[k.execId] == RowOf(k.result, k.eventId)
      && SessionOf(after, w) == Done(Answered(false, true, failureId, None))
  {
    CommittedDb(s, w, false);
    LinkedIsSettled(s, w);
    LinkedCarries(s, w);
    hide Inv, WellFormed, Install, RowOf, FailedRow, After, Applies, CarriedGrant, Settled;
  }

  lemma CommittedDb(s: State, w: int, acknowledged: bool)
    requires Inv(s) && At(s, w, Linked)
    ensures var k, t := SessionOf(s, w), Next(s, Commit(w, acknowledged));
      && k.eventId.Some? && t.db == Written(s.db, k.execId, k.eventId.value, k.judged)
      && t.initial == s.initial && t.used == s.used
  {
    CommitIsOneDecision(s, w);
    hide Inv, WellFormed, Install, Written, CarriedGrant;
  }

  lemma LinkedCarries(s: State, w: int)
    requires Inv(s) && At(s, w, Linked)
    ensures SessionOf(s, w).execId in s.used && CarriedGrant(SessionOf(s, w)) == SessionOf(s, w).result.matchedGrantId
  {
    hide Locks, Linkage, Uses, WellFormed, Witnessed, Settling;
    assert SessionOf(s, w).execId in Owned(SessionOf(s, w));
  }

  // ---- attempts that fail ----

  /** An identifier that is spent: no row has it, and nobody can use it any more. */
  ghost predicate Dead(s: State, id: string) {
    id in s.used && id !in Ids(s.db) && forall w :: w in s.sessions ==> id !in Owned(s.sessions[w])
  }

  /** An effect adds exactly its own identifiers to the tables. */
  function NewIds(e: Effect): set<string> {
    match e
    case Decided(execId, eventId, _) => {execId, eventId}
    case FailureRecorded(id, _) => {id}
    case _ => {}
  }

  lemma ApplyIds(db: Db, e: Effect)
    ensures Ids(Apply(db, e)) == Ids(db) + NewIds(e)
  {
    hide Settled, Consumes, RowOf, EventOf, After;
  }

  /** The identifiers in play afterwards were in play before, or are fresh. */
  lemma StepKeepsDead(s: State, step: Step, id: string)
    requires Inv(s) && Enabled(s, step) && Dead(s, id)
    ensures Dead(Next(s, step), id)
  {
    DeadIsNotAdded(s, step, id);
    DeadIsNotTaken(s, step, id);
    hide Next, Enabled, Inv, Ids, Owned;
  }

  lemma DeadIsNotAdded(s: State, step: Step, id: string)
    requires Inv(s) && Enabled(s, step) && Dead(s, id)
    ensures id !in Ids(Next(s, step).db)
  {
    StepIsItsEffect(s, step);
    ApplyIds(s.db, EffectOf(s, step));
    if step.Commit? {
      var k := SessionOf(s, step.w);
      assert k.execId in Owned(k) && k.eventId.value in Owned(k);
    }
    hide Next, Ids, Apply, Distinct, Locks, Linkage, Uses, Witnessed, Settling, Locked;
  }

  lemma DeadIsNotTaken(s: State, step: Step, id: string)
    requires Enabled(s, step) && Dead(s, id)
    ensures id in Next(s, step).used
    ensures forall w :: w in Next(s, step).sessions ==> id !in Owned(Next(s, step).sessions[w])
  {
    hide Ids, Install, WithFailure, After, Applies, Locked, RowOf, EventOf, Judged, ApprovesEligible, Listed, CarriedGrant, Settled, Consumes;
  }

  lemma {:induction false} DeadForever(grants: Grants, steps: seq<Step>, states: seq<State>, i: nat, j: nat, id: string)
    requires Run(grants, steps, states) && i <= j <= |steps| && Dead(states[i], id)
    ensures Dead(states[j], id)
    decreases j
  {
    hide Next, Enabled, Inv, Dead, Init;
    if i < j {
      DeadForever(grants, steps, states, i, j - 1, id);
      RunKeepsInv(grants, steps, states, j - 1);
      RunStep(grants, steps, states, j - 1);
      hide Run;
      StepKeepsDead(states[j - 1], steps[j - 1], id);
    }
  }

  /** The step that makes an attempt fail: an error before the commit took effect, or a commit whose
      acknowledgement is lost. */
  predicate Fails(step: Step) {
    step.Fail? || (step.Commit? && !step.acknowledged)
  }

  /** An attempt that failed has a decision row, at any later moment, exactly when what failed was the
      acknowledgement of its commit. */
  lemma FailedAttemptIff(grants: Grants, steps: seq<Step>, states: seq<State>, i: nat, j: nat)
    requires Run(grants, steps, states) && i < j <= |steps| && Fails(steps[i])
    ensures Tries(SessionOf(states[i], steps[i].w))
    ensures SessionOf(states[i], steps[i].w).execId in states[j].db.executions <==> steps[i].Commit?
  {
    RunKeepsInv(grants, steps, states, i);
    CommittedStays(grants, steps, states, i + 1, j);
    assert states[i + 1] == Next(states[i], steps[i]) && Enabled(states[i], steps[i]);
    hide Run, Extends;
    FailingStep(states[i], steps[i]);
    if steps[i].Commit? {
      StaysExecuted(states[i + 1].db, states[j].db, SessionOf(states[i], steps[i].w).execId);
    } else {
      DeadForever(grants, steps, states, i + 1, j, SessionOf(states[i], steps[i].w).execId);
      DeadHasNoRow(states[j], SessionOf(states[i], steps[i].w).execId);
    }
    hide Next, Enabled, Inv, Dead;
  }

  lemma StaysExecuted(earlier: Db, later: Db, id: string)
    requires Extends(later, earlier) && id in earlier.executions
    ensures id in later.executions
  {
  }

  lemma DeadHasNoRow(s: State, id: string)
    requires Dead(s, id)
    ensures id !in s.db.executions
  {
  }

  lemma FailingStep(s: State, step: Step)
    requires Inv(s) && Enabled(s, step) && Fails(step)
    ensures Tries(SessionOf(s, step.w))
    ensures var id := SessionOf(s, step.w).execId;
      if step.Commit? then id in Next(s, step).db.executions else Dead(Next(s, step), id)
  {
    if step.Commit? {
      CommitIsOneDecision(s, step.w);
      hide Install, Inv, Settled, Consumes, Dead, CarriedGrant;
    } else {
      FailedIsDead(s, step.w);
      hide Next, Inv, Dead;
    }
  }

  lemma FailedIsDead(s: State, w: int)
    requires Inv(s) && Tries(SessionOf(s, w))
    ensures Dead(Next(s, Fail(w)), SessionOf(s, w).execId)
  {
    hide Locks, Linkage, Uses, Witnessed, Settling, WellFormed, CarriedGrant;
    assert SessionOf(s, w).execId in Owned(SessionOf(s, w));
    hide Ids;
  }

  // ---- succeeded rows come from approvable requests ----

  /** Step i judged the attempt id by the given result. */
  predicate JudgedAt(states: seq<State>, steps: seq<Step>, i: nat, id: string, judged: PolicyResult)
    requires i < |steps| && i < |states|
  {
    && steps[i].Decide? && Decidable(SessionOf(states[i], steps[i].w), steps[i].inquiry)
    && SessionOf(states[i], steps[i].w).execId == id
    && judged == Judged(steps[i].inquiry, steps[i].verify)
  }

  lemma InTxStep(s: State, step: Step, w: int)
    requires Enabled(s, step) && SessionOf(Next(s, step), w).InTx?
    ensures var k, l := SessionOf(s, w), SessionOf(Next(s, step), w);
      || (k.InTx? && k.execId == l.execId && k.judged == l.judged)
      || (step.Decide? && step.w == w && Decidable(k, step.inquiry) && k.execId == l.execId
          && l.judged == Judged(step.inquiry, step.verify))
  {
    hide Locked, RowOf, EventOf, Judged, ApprovesEligible, Listed, CarriedGrant, Settled, Install, After, Applies, Consumes, WithFailure;
  }

  lemma {:induction false} SessionOrigin(grants: Grants, steps: seq<Step>, states: seq<State>, n: nat, w: int) returns (i: nat)
    requires Run(grants, steps, states) && n <= |steps| && SessionOf(states[n], w).InTx?
    ensures i < n && JudgedAt(states, steps, i, SessionOf(states[n], w).execId, SessionOf(states[n], w).judged)
  {
    if n > 0 {
      InTxStep(states[n - 1], steps[n - 1], w);
      hide Next, Enabled, Judged;
      if SessionOf(states[n - 1], w).InTx? && SessionOf(states[n - 1], w).execId == SessionOf(states[n], w).execId
         && SessionOf(states[n - 1], w).judged == SessionOf(states[n], w).judged {
        i := SessionOrigin(grants, steps, states, n - 1, w);
      } else {
        i := n - 1;
      }
    }
  }

  lemma NewRow(s: State, step: Step, e: string)
    requires Inv(s) && Enabled(s, step)
    requires e in Next(s, step).db.executions && Next(s, step).db.executions[e].result.Succeeded?
    ensures (e in s.db.executions && s.db.executions[e] == Next(s, step).db.executions[e])
         || (step.Commit? && SessionOf(s, step.w).InTx? && SessionOf(s, step.w).execId == e && SessionOf(s, step.w).judged.approved
             && At(s, step.w, Linked) && SessionOf(s, step.w).result == SessionOf(s, step.w).judged
             && Next(s, step).db.executions[e].grantId == SessionOf(s, step.w).judged.matchedGrantId)
  {
    StepIsItsEffect(s, step);
    if step.Commit? { LinkedIsSettled(s, step.w); }
    hide Inv, Next, Applies, After, Locked;
  }

  /** Step c committed the attempt e. */
  predicate CommitsAt(states: seq<State>, steps: seq<Step>, c: nat, e: string)
    requires c < |steps| && c < |states|
  {
    steps[c].Commit? && SessionOf(states[c], steps[c].w).InTx? && SessionOf(states[c], steps[c].w).execId == e
  }

  lemma {:induction false} RowCommit(grants: Grants, steps: seq<Step>, states: seq<State>, n: nat, e: string) returns (c: nat)
    requires Run(grants, steps, states) && n <= |steps|
    requires e in states[n].db.executions && states[n].db.executions[e].result.Succeeded?
    ensures c < n && CommitsAt(states, steps, c, e) && At(states[c], steps[c].w, Linked)
    ensures SessionOf(states[c], steps[c].w).judged.approved
    ensures SessionOf(states[c], steps[c].w).result == SessionOf(states[c], steps[c].w).judged
    ensures states[n].db.executions[e].grantId == SessionOf(states[c], steps[c].w).judged.matchedGrantId
  {
    if n > 0 {
      RunKeepsInv(grants, steps, states, n - 1);
      NewRow(states[n - 1], steps[n - 1], e);
      hide Next, Enabled, Inv;
      var s := states[n - 1];
      if e in s.db.executions && s.db.executions[e] == states[n].db.executions[e] {
        c := RowCommit(grants, steps, states, n - 1, e);
      } else {
        c := n - 1;
      }
    }
  }

  /** Behind every succeeded execution, in every reachable state, stands a step that judged that very attempt
      on an approvable request: no required challenge missing, the policy's approval, a valid challenge
      where one was named, and the signature of the matched grant; and the row names that grant. */
  lemma SucceededWasApprovable(grants: Grants, steps: seq<Step>, states: seq<State>, n: nat, e: string) returns (i: nat)
    requires Run(grants, steps, states) && n <= |steps|
    requires e in states[n].db.executions && states[n].db.executions[e].result.Succeeded?
    ensures i < n && steps[i].Decide? && Decidable(SessionOf(states[i], steps[i].w), steps[i].inquiry)
    ensures SessionOf(states[i], steps[i].w).execId == e
    ensures Approvable(steps[i].inquiry, steps[i].verify)
    ensures states[n].db.executions[e].grantId == steps[i].inquiry.policy.matchedGrantId
  {
    var c := RowCommit(grants, steps, states, n, e);
    i := SessionOrigin(grants, steps, states, c, steps[c].w);
    hide Run;
    JudgedApproved(steps[i].inquiry, steps[i].verify);
    hide Judged, Approvable;
  }
}
