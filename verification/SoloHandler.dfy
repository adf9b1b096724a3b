/** A handler whose steps nobody interrupts does in the machine exactly what the service method does, for every
    request and every fault. */
module SoloHandler {
  import opened Wrappers
  import opened Decision
  import opened DecisionProtocol
  import Challenges
  import GrantRepository
  import Keyring

  // ---- paths ----

  /** A run from any state. */
  ghost predicate Path(s: State, steps: seq<Step>, states: seq<State>) {
    && |states| == |steps| + 1 && states[0] == s
    && forall i :: 0 <= i < |steps| ==> Enabled(states[i], steps[i]) && states[i + 1] == Next(states[i], steps[i])
  }

  function Last(states: seq<State>): State
    requires |states| > 0
  {
    states[|states| - 1]
  }

  lemma PathJoin(s: State, front: seq<Step>, first: seq<State>, back: seq<Step>, second: seq<State>)
    requires Path(s, front, first) && Path(Last(first), back, second)
    ensures Path(s, front + back, first + second[1..]) && Last(first + second[1..]) == Last(second)
    ensures |first| == |front| + 1 && |second| == |back| + 1 && Last(first) == second[0]
  {
    hide Enabled, Next;
    var steps, states := front + back, first + second[1..];
    forall i | 0 <= i < |steps| ensures Enabled(states[i], steps[i]) && states[i + 1] == Next(states[i], steps[i]) {
      if i >= |front| {
        assert steps[i] == back[i - |front|] && states[i] == second[i - |front|] && states[i + 1] == second[i - |front| + 1];
      }
    }
  }

  lemma PathLength(s: State, steps: seq<Step>, states: seq<State>)
    requires Path(s, steps, states)
    ensures |states| == |steps| + 1
  {
    hide Enabled, Next;
  }

  lemma NoStep(s: State)
    ensures Path(s, [], [s]) && Last([s]) == s
  {
  }

  lemma OneStep(s: State, step: Step)
    requires Enabled(s, step)
    ensures Path(s, [step], [s, Next(s, step)]) && Last([s, Next(s, step)]) == Next(s, step)
  {
    hide Enabled, Next;
  }

  ghost predicate OthersStay(s: State, t: State, w: int) {
    forall x :: x != w ==> SessionOf(t, x) == SessionOf(s, x)
  }

  // ---- the transaction ----

  /** The handler's transaction after each statement; v is the audit event's identifier. */
  function InTransaction(e: string, v: string, judged: PolicyResult, result: PolicyResult, stage: Stage): Session {
    var linked := stage.Audited? || stage.Linked?;
    InTx(e, judged, result, stage, if linked then Some(v) else None,
         Pending(if stage.Begun? || !Consumes(result) then None else result.matchedGrantId,
                 if stage.Begun? || stage.Used? then map[] else map[e := RowOf(result, if stage.Linked? then Some(v) else None)],
                 if linked then map[v := EventOf(result)] else map[]))
  }

  /** The result in hand at the stage. */
  function ResultAt(grants: GrantRepository.Grants, judged: PolicyResult, stage: Stage): PolicyResult {
    if stage.Begun? then judged else Settled(grants, judged)
  }

  function Depth(stage: Stage): nat {
    match stage case Begun => 0 case Used => 1 case Recorded => 2 case Audited => 3 case Linked => 4
  }

  function After(stage: Stage): Stage {
    match stage case Begun => Used case Used => Recorded case Recorded => Audited case _ => Linked
  }

  function StepAt(w: int, v: string, stage: Stage): Step {
    match stage case Begun => Consume(w) case Used => Record(w) case Recorded => Audit(w, v) case _ => Link(w)
  }

  /** Nobody holds the row whose use the result asks for. */
  predicate Free(s: State, judged: PolicyResult) {
    Consumes(judged) ==> !Locked(s, judged.matchedGrantId.value)
  }

  /** Session w is in its transaction, at the stage. */
  ghost predicate Runs(s: State, w: int, e: string, v: string, judged: PolicyResult, stage: Stage) {
    && SessionOf(s, w) == InTransaction(e, v, judged, ResultAt(s.db.grants, judged, stage), stage)
    && (stage.Begun? ==> Free(s, judged))
    && (Depth(stage) < 3 ==> v !in s.used)
  }

  /** Nothing but session w, and the identifiers handed out, has changed. */
  ghost predicate Keeps(s: State, t: State, w: int) {
    && OthersStay(s, t, w) && t.db == s.db && t.challenges == s.challenges && s.used <= t.used
  }

  lemma Uses(s: State, w: int, e: string, v: string, judged: PolicyResult)
    requires Runs(s, w, e, v, judged, Begun)
    ensures Enabled(s, Consume(w)) && Runs(Next(s, Consume(w)), w, e, v, judged, Used)
    ensures Keeps(s, Next(s, Consume(w)), w) && Next(s, Consume(w)).used == s.used
  {
    hide Locked, RowOf, EventOf, GrantRepository.Applies;
  }

  lemma WritesRow(s: State, w: int, e: string, v: string, judged: PolicyResult)
    requires Runs(s, w, e, v, judged, Used)
    ensures Enabled(s, Record(w)) && Runs(Next(s, Record(w)), w, e, v, judged, Recorded)
    ensures Keeps(s, Next(s, Record(w)), w) && Next(s, Record(w)).used == s.used
  {
    hide Locked, RowOf, EventOf, Settled, Consumes;
  }

  lemma WritesEvent(s: State, w: int, e: string, v: string, judged: PolicyResult)
    requires Runs(s, w, e, v, judged, Recorded)
    ensures Enabled(s, Audit(w, v)) && Runs(Next(s, Audit(w, v)), w, e, v, judged, Audited)
    ensures Keeps(s, Next(s, Audit(w, v)), w) && Next(s, Audit(w, v)).used == s.used + {v}
  {
    hide Locked, RowOf, EventOf, Settled, Consumes;
  }

  lemma WritesLink(s: State, w: int, e: string, v: string, judged: PolicyResult)
    requires Runs(s, w, e, v, judged, Audited)
    ensures Enabled(s, Link(w)) && Runs(Next(s, Link(w)), w, e, v, judged, Linked)
    ensures Keeps(s, Next(s, Link(w)), w) && Next(s, Link(w)).used == s.used
  {
    var r := Settled(s.db.grants, judged);
    assert RowOf(r, None).(auditEventId := Some(v)) == RowOf(r, Some(v));
    assert map[e := RowOf(r, None)][e := RowOf(r, Some(v))] == map[e := RowOf(r, Some(v))];
    hide Locked, RowOf, EventOf, Settled, Consumes;
  }

  lemma Advances(s: State, w: int, e: string, v: string, judged: PolicyResult, stage: Stage)
    requires Runs(s, w, e, v, judged, stage) && stage != Linked
    ensures var step := StepAt(w, v, stage);
      && Enabled(s, step) && Runs(Next(s, step), w, e, v, judged, After(stage)) && Keeps(s, Next(s, step), w)
      && Next(s, step).used == s.used + (if stage.Recorded? then {v} else {})
  {
    hide Runs, Enabled, Next, Keeps;
    match stage {
      case Begun => Uses(s, w, e, v, judged);
      case Used => WritesRow(s, w, e, v, judged);
      case Recorded => WritesEvent(s, w, e, v, judged);
      case Audited => WritesLink(s, w, e, v, judged);
    }
  }

  /** From the beginning of the transaction to any stage. */
  lemma {:induction false} Reaches(s: State, w: int, e: string, v: string, judged: PolicyResult, from: Stage, target: Stage)
    returns (steps: seq<Step>, states: seq<State>)
    requires Runs(s, w, e, v, judged, from) && Depth(from) <= Depth(target)
    ensures Path(s, steps, states) && Runs(Last(states), w, e, v, judged, target) && Keeps(s, Last(states), w)
    ensures Last(states).used <= s.used + {v}
    decreases Depth(target) - Depth(from)
  {
    hide Runs, Enabled, Next, Path;
    if from == target {
      NoStep(s);
      steps, states := [], [s];
    } else {
      Advances(s, w, e, v, judged, from);
      var step := StepAt(w, v, from);
      OneStep(s, step);
      var t := Next(s, step);
      var back, rest := Reaches(t, w, e, v, judged, After(from), target);
      PathJoin(s, [step], [s, t], back, rest);
      steps, states := [step] + back, [s, t] + rest[1..];
    }
  }

  // ---- before the transaction ----

  /** What the request brings is what the handler finds: the grants that are listed, an answer of the policy that
      keeps to its contract, and the answer to the challenge call. */
  predicate Found(s: State, q: Inquiry, call: Challenges.Call) {
    !RequiredMissing(q) ==>
      && ApprovesEligible(q.policy, q.grants) && Listed(s.db.grants, q.grants)
      && (q.challengeId.Some? ==> call.id == q.challengeId.value && q.challenge == Challenges.Decide(s.challenges, call))
  }

  function ChallengesAfter(s: State, q: Inquiry, call: Challenges.Call): Challenges.Store {
    if RequiredMissing(q) || q.challengeId.None? then s.challenges else Challenges.AfterValidate(s.challenges, call)
  }

  function Reading(w: int, q: Inquiry, call: Challenges.Call): seq<Step> {
    if RequiredMissing(q) then []
    else
      [Evaluate(w, q.policy, q.grants)]
      + (if q.challengeId.None? then [] else [Look(w, call)] + (if q.challenge.Valid? then [Mark(w)] else []))
  }

  /** The reads of the handler, the mark included, leave it ready to decide. */
  lemma Reads(s: State, w: int, e: string, q: Inquiry, call: Challenges.Call) returns (states: seq<State>)
    requires SessionOf(s, w) == Attempting(e) && Found(s, q, call)
    ensures Path(s, Reading(w, q, call), states)
    ensures var t := Last(states);
      && Tries(SessionOf(t, w)) && SessionOf(t, w).execId == e
      && Decidable(SessionOf(t, w), q) && OthersStay(s, t, w) && t.db == s.db && t.used == s.used
      && t.challenges == ChallengesAfter(s, q, call)
  {
    if RequiredMissing(q) {
      states := [s];
    } else {
      var s1 := Next(s, Evaluate(w, q.policy, q.grants));
      if q.challengeId.None? {
        states := [s, s1];
      } else {
        hide Challenges.Decide, Challenges.Marked, ApprovesEligible, Listed;
        var s2 := Next(s1, Look(w, call));
        if q.challenge.Valid? {
          Challenges.ValidIsStored(s.challenges, call);
          states := [s, s1, s2, Next(s2, Mark(w))];
        } else {
          states := [s, s1, s2];
        }
      }
    }
  }

  /** The handler up to the beginning of its transaction. */
  lemma Judges(s: State, w: int, e: string, v: string, q: Inquiry, call: Challenges.Call,
               verify: GrantRepository.GrantRow -> Keyring.SignatureResult)
    returns (steps: seq<Step>, states: seq<State>)
    requires SessionOf(s, w).Idle? && e !in s.used && v !in s.used + {e} && Found(s, q, call) && Free(s, Judged(q, verify))
    ensures Path(s, steps, states)
    ensures var t := Last(states);
      && Runs(t, w, e, v, Judged(q, verify), Begun) && OthersStay(s, t, w) && t.db == s.db && t.used == s.used + {e}
      && t.challenges == ChallengesAfter(s, q, call)
  {
    OneStep(s, Start(w, e));
    var s1 := Next(s, Start(w, e));
    var states1 := Reads(s1, w, e, q, call);
    var s2 := Last(states1);
    var decide := Decide(w, q, verify);
    hide Judged, ApprovesEligible, Listed, Challenges.Decide, ChallengesAfter, Answers, Path, Reading;
    OneStep(s2, decide);
    PathJoin(s1, Reading(w, q, call), states1, [decide], [s2, Next(s2, decide)]);
    var steps1, states2 := Reading(w, q, call) + [decide], states1 + [s2, Next(s2, decide)][1..];
    PathJoin(s, [Start(w, e)], [s, s1], steps1, states2);
    steps, states := [Start(w, e)] + steps1, [s, s1] + states2[1..];
    DecidedRuns(s, s2, w, e, v, q, verify);
  }

  lemma DecidedRuns(s: State, s2: State, w: int, e: string, v: string, q: Inquiry,
                    verify: GrantRepository.GrantRow -> Keyring.SignatureResult)
    requires !SessionOf(s, w).InTx? && OthersStay(s, s2, w) && Decidable(SessionOf(s2, w), q) && SessionOf(s2, w).execId == e
    requires Free(s, Judged(q, verify)) && v !in s2.used
    ensures var t := Next(s2, Decide(w, q, verify));
      && Runs(t, w, e, v, Judged(q, verify), Begun) && OthersStay(s, t, w)
      && t.db == s2.db && t.used == s2.used && t.challenges == s2.challenges
  {
    hide Judged, RowOf, EventOf;
    var t := Next(s2, Decide(w, q, verify));
    if Consumes(Judged(q, verify)) {
      var id := Judged(q, verify).matchedGrantId.value;
      assert !Locked(s, id);
      forall x | x in t.sessions ensures !Holds(t.sessions[x], id) {
        if x != w { assert SessionOf(t, x) == SessionOf(s, x); }
      }
    }
  }

  // ---- after the transaction ----

  /** Where the handler is when the fault strikes. */
  function StageOf(fault: Fault): Stage {
    match fault
    case InConsume => Begun
    case InRecord => Used
    case InAudit => Recorded
    case InLink => Audited
    case _ => Linked
  }

  function Ending(w: int, fault: Fault, failureId: string, recordable: bool): seq<Step> {
    if fault.NoFault? then [Commit(w, true)]
    else if fault.AfterCommit? then [Commit(w, false)] + Recording(w, failureId, recordable)
    else [Fail(w)] + Recording(w, failureId, recordable)
  }

  function Recording(w: int, failureId: string, recordable: bool): seq<Step> {
    if recordable then [RecordFailure(w, failureId, true)] else [GiveUp(w)]
  }

  lemma Commits(s: State, w: int, e: string, v: string, judged: PolicyResult, acknowledged: bool) returns (states: seq<State>)
    requires Runs(s, w, e, v, judged, Linked)
    ensures Path(s, [Commit(w, acknowledged)], states)
    ensures var t := Last(states);
      && SessionOf(t, w) == (if acknowledged then Done(Answered(Settled(s.db.grants, judged).approved, false, e, Some(v))) else Failing(judged.matchedGrantId))
      && OthersStay(s, t, w) && t.challenges == s.challenges && t.used == s.used && t.db == Written(s.db, e, v, judged)
  {
    SettledKeepsGrant(s.db.grants, judged);
    RunsInstalls(s, w, e, v, judged);
    hide RowOf, EventOf, Settled, Consumes, Install, Written, FailedRow, Locked;
    states := [s, Next(s, Commit(w, acknowledged))];
  }

  lemma Fails(s: State, w: int, e: string, v: string, judged: PolicyResult, stage: Stage) returns (states: seq<State>)
    requires Runs(s, w, e, v, judged, stage)
    ensures Path(s, [Fail(w)], states)
    ensures var t := Last(states);
      && SessionOf(t, w) == Failing(if stage.Begun? then None else judged.matchedGrantId)
      && OthersStay(s, t, w) && t.challenges == s.challenges && t.used == s.used && t.db == s.db
  {
    SettledKeepsGrant(s.db.grants, judged);
    hide RowOf, EventOf, Settled, Consumes, FailedRow, Locked;
    states := [s, Next(s, Fail(w))];
  }

  lemma RecordsFailure(s: State, w: int, grantId: Option<string>, failureId: string, recordable: bool) returns (states: seq<State>)
    requires SessionOf(s, w) == Failing(grantId) && failureId !in s.used
    ensures Path(s, Recording(w, failureId, recordable), states)
    ensures var t := Last(states);
      && SessionOf(t, w) == Done(if recordable then Answered(false, true, failureId, None) else Raised)
      && OthersStay(s, t, w) && t.challenges == s.challenges
      && t.db == if recordable then WithFailure(s.db, failureId, grantId) else s.db
  {
    hide FailedRow, Locked;
    states := [s, Next(s, if recordable then RecordFailure(w, failureId, true) else GiveUp(w))];
  }

  /** The commit, or the failure and its record. */
  lemma Ends(s: State, w: int, e: string, v: string, failureId: string, judged: PolicyResult, fault: Fault, recordable: bool)
    returns (states: seq<State>)
    requires Runs(s, w, e, v, judged, StageOf(fault)) && !fault.InJudging? && failureId !in s.used
    ensures Path(s, Ending(w, fault, failureId, recordable), states)
    ensures var t := Last(states);
      && SessionOf(t, w).Done? && OthersStay(s, t, w) && t.challenges == s.challenges
      && (t.db, SessionOf(t, w).answer) == Outcome(s.db, judged, e, v, failureId, fault, recordable)
  {
    hide Runs, Path, Recording, Written, Settled, WithFailure;
    if fault.NoFault? {
      states := Commits(s, w, e, v, judged, true);
    } else {
      var step := if fault.AfterCommit? then Commit(w, false) else Fail(w);
      var first: seq<State>;
      if fault.AfterCommit? {
        first := Commits(s, w, e, v, judged, false);
      } else {
        first := Fails(s, w, e, v, judged, StageOf(fault));
      }
      PathLength(s, [step], first);
      var t := Last(first);
      var second := RecordsFailure(t, w, SessionOf(t, w).grantId, failureId, recordable);
      PathJoin(s, [step], first, Recording(w, failureId, recordable), second);
      states := first + second[1..];
    }
  }

  lemma SettledKeepsGrant(grants: GrantRepository.Grants, judged: PolicyResult)
    ensures Settled(grants, judged).matchedGrantId == judged.matchedGrantId
  {
  }

  lemma RunsInstalls(s: State, w: int, e: string, v: string, judged: PolicyResult)
    requires Runs(s, w, e, v, judged, Linked)
    ensures Install(s.db, SessionOf(s, w).pending) == Written(s.db, e, v, judged)
  {
    InstallIsWritten(s.db, SessionOf(s, w));
    hide Install, Written;
  }

  /** A handler that raises before its transaction. */
  lemma FailsEarly(s: State, w: int, e: string, v: string, failureId: string, judged: PolicyResult, recordable: bool)
    returns (steps: seq<Step>, states: seq<State>)
    requires SessionOf(s, w).Idle? && e !in s.used && failureId !in s.used + {e}
    ensures Path(s, steps, states)
    ensures var t := Last(states);
      && SessionOf(t, w).Done? && OthersStay(s, t, w) && t.challenges == s.challenges
      && (t.db, SessionOf(t, w).answer) == Outcome(s.db, judged, e, v, failureId, InJudging, recordable)
  {
    hide Written, Settled, FailedRow, Locked;
    var s1 := Next(s, Start(w, e));
    var s2 := Next(s1, Fail(w));
    var last := if recordable then RecordFailure(w, failureId, true) else GiveUp(w);
    steps, states := [Start(w, e), Fail(w), last], [s, s1, s2, Next(s2, last)];
  }

  /** For every request, whatever its challenge, grants, policy and signature, for every fault, and from every
      state in which nobody else holds the row whose use is asked for: the machine has a run of one handler that leaves the database and gives
      the answer that the service method does, and leaves the challenge as its validation does. */
  lemma AloneIsTheMethod(s: State, w: int, q: Inquiry, call: Challenges.Call, verify: GrantRepository.GrantRow -> Keyring.SignatureResult,
                         e: string, v: string, failureId: string, fault: Fault, recordable: bool)
    returns (steps: seq<Step>, states: seq<State>)
    requires SessionOf(s, w).Idle? && Free(s, Judged(q, verify)) && Found(s, q, call)
    requires e !in s.used && v !in s.used + {e} && failureId !in s.used + {e, v}
    ensures Path(s, steps, states)
    ensures var t := Last(states);
      && SessionOf(t, w).Done? && OthersStay(s, t, w)
      && (t.db, SessionOf(t, w).answer) == Outcome(s.db, Judged(q, verify), e, v, failureId, fault, recordable)
      && t.challenges == (if fault.InJudging? then s.challenges else ChallengesAfter(s, q, call))
      && Enabled(t, Return(w)) && Next(t, Return(w)) == t.(sessions := t.sessions[w := Idle])
  {
    hide Found, Path, Runs, Outcome, Locked, ChallengesAfter, Judged, Ending, Free;
    if fault.InJudging? {
      steps, states := FailsEarly(s, w, e, v, failureId, Judged(q, verify), recordable);
    } else {
      var judged := Judged(q, verify);
      var front, first := Judges(s, w, e, v, q, call, verify);
      PathLength(s, front, first);
      var middle, second := Reaches(Last(first), w, e, v, judged, Begun, StageOf(fault));
      PathLength(Last(first), middle, second);
      var third := Ends(Last(second), w, e, v, failureId, judged, fault, recordable);
      PathJoin(Last(first), middle, second, Ending(w, fault, failureId, recordable), third);
      var back, rest := middle + Ending(w, fault, failureId, recordable), second + third[1..];
      PathJoin(s, front, first, back, rest);
      steps, states := front + back, first + rest[1..];
    }
  }

  /** An administrator who finds the row free does what the repository does, and a challenge may be created at
      any time. */
  lemma AdministratorIsTheRepository(s: State, op: GrantRepository.Operation, create: Challenges.Operation)
    requires create.Create?
    requires match op
      case Create(row) => row.fields.id !in s.db.grants
      case Revoke(id, _, _, _) => !Locked(s, id)
      case Renew(id, _, _, _, _) => !Locked(s, id)
      case TryConsumeUse(_) => false
    ensures Enabled(s, Administer(op)) && Enabled(s, Issue(create))
    ensures var t := Next(s, Administer(op));
      t.db == s.db.(grants := GrantRepository.After(s.db.grants, op)) && t.sessions == s.sessions && t.challenges == s.challenges
    ensures Next(s, Issue(create)) == s.(challenges := Challenges.Step(s.challenges, create))
  {
  }
}
