/** One decision: from the policy's answer, the signature and the challenge to the result, and the rows
    that are written for it in one transaction. */
module Decision {
  import opened Wrappers
  import opened GrantRepository
  import Challenges
  import Keyring

  datatype PolicyResult = PolicyResult(approved: bool, reason: string, matchedGrantId: Option<string>, reasonCode: Option<string>)

  /** A grant that the policy may approve: not revoked, and with a use left. */
  predicate Eligible(g: GrantRow) {
    g.revoked.None? && HasUsesLeft(g)
  }

  /** The policy approves only with a grant of the list. */
  predicate PolicyContract(p: PolicyResult, grants: seq<GrantRow>) {
    p.approved ==> p.matchedGrantId.Some? && exists i :: 0 <= i < |grants| && grants[i].fields.id == p.matchedGrantId.value
  }

  /** And that grant was eligible when it was listed. */
  predicate ApprovesEligible(p: PolicyResult, grants: seq<GrantRow>) {
    p.approved ==> p.matchedGrantId.Some? && exists g :: g in grants && g.fields.id == p.matchedGrantId.value && Eligible(g)
  }

  /** An empty identifier counts as absent. */
  predicate Matched(p: PolicyResult) {
    p.matchedGrantId.Some? && p.matchedGrantId.value != ""
  }

  /** The first grant of the list with the given id. */
  function FirstWith(grants: seq<GrantRow>, id: string): (r: Option<GrantRow>)
    ensures r.Some? ==> r.value in grants && r.value.fields.id == id
    ensures r.None? <==> forall i :: 0 <= i < |grants| ==> grants[i].fields.id != id
  {
    if grants == [] then None
    else if grants[0].fields.id == id then Some(grants[0])
    else FirstWith(grants[1..], id)
  }

  function DenyCode(r: Keyring.SignatureResult): string {
    match r
    case Missing => "grant_signature_missing"
    case Invalid => "grant_signature_invalid"
    case HashMismatch => "grant_payload_hash_mismatch"
    case UnknownKey => "grant_signature_unknown_key"
    case Valid => "grant_signature_valid"
  }

  function ChallengeCode(r: Challenges.Result): string {
    match r
    case Valid => "valid"
    case NotFound => "not_found"
    case ExpiredResult => "expired"
    case AlreadyUsed => "already_used"
    case Mismatch => "mismatch"
  }

  /** What a request brings: whether challenges are required, the challenge id it names and what the
      store answers to it, the policy's answer and the grants it looked at. */
  datatype Inquiry = Inquiry(challengeRequired: bool, challengeId: Option<string>, challenge: Challenges.Result,
                             policy: PolicyResult, grants: seq<GrantRow>)

  predicate RequiredMissing(q: Inquiry) {
    q.challengeRequired && (q.challengeId.None? || q.challengeId.value == "")
  }

  /** The result before a use is asked for. */
  function Judged(q: Inquiry, verify: GrantRow -> Keyring.SignatureResult): PolicyResult {
    if RequiredMissing(q) then PolicyResult(false, "challenge_required", None, Some("challenge_required"))
    else if q.challengeId.Some? && q.challenge != Challenges.Valid then
      PolicyResult(false, "Challenge invalid: " + ChallengeCode(q.challenge), q.policy.matchedGrantId, Some("challenge_invalid"))
    else if Matched(q.policy) && FirstWith(q.grants, q.policy.matchedGrantId.value).Some? then
      var check := verify(FirstWith(q.grants, q.policy.matchedGrantId.value).value);
      if check == Keyring.Valid then q.policy else PolicyResult(false, DenyCode(check), q.policy.matchedGrantId, Some(DenyCode(check)))
    else q.policy
  }

  /** The first listed grant with the policy's id, if the policy names one and the id is not empty. */
  ghost predicate IsMatch(q: Inquiry, g: GrantRow) {
    && q.policy.matchedGrantId == Some(g.fields.id) && g.fields.id != ""
    && exists i :: 0 <= i < |q.grants| && q.grants[i] == g && forall j :: 0 <= j < i ==> q.grants[j].fields.id != g.fields.id
  }

  /** The answer on a request that brings what is required: the challenge's refusal comes first, then the
      signature's, and otherwise it is the policy's own. */
  ghost predicate JudgedBy(q: Inquiry, verify: GrantRow -> Keyring.SignatureResult, r: PolicyResult) {
    && (q.challengeId.Some? && !q.challenge.Valid? ==>
          && !r.approved && r.reasonCode == Some("challenge_invalid")
          && r.reason == "Challenge invalid: " + (match q.challenge
               case NotFound => "not_found"
               case ExpiredResult => "expired"
               case AlreadyUsed => "already_used"
               case _ => "mismatch"))
    && (q.challengeId.None? || q.challenge.Valid? ==>
          && (forall g :: IsMatch(q, g) && !verify(g).Valid? ==>
                && !r.approved && r.reasonCode == Some(r.reason)
                && r.reason == match verify(g)
                     case Missing => "grant_signature_missing"
                     case Invalid => "grant_signature_invalid"
                     case HashMismatch => "grant_payload_hash_mismatch"
                     case _ => "grant_signature_unknown_key")
          && ((forall g :: IsMatch(q, g) ==> verify(g).Valid?) ==> r == q.policy))
  }

  method Judge(q: Inquiry, verify: GrantRow -> Keyring.SignatureResult) returns (result: PolicyResult)
    ensures result == Judged(q, verify)
    ensures result.approved <==> Approvable(q, verify)
    ensures !RequiredMissing(q) ==> result.matchedGrantId == q.policy.matchedGrantId
    ensures result.approved ==> result == q.policy
    ensures q.challengeRequired && (q.challengeId == None || q.challengeId == Some("")) ==>
      result == PolicyResult(false, "challenge_required", None, Some("challenge_required"))
    ensures !(q.challengeRequired && (q.challengeId == None || q.challengeId == Some(""))) ==> JudgedBy(q, verify, result)
  {
    JudgedIsBy(q, verify);
    hide JudgedBy, IsMatch;
    if RequiredMissing(q) {
      return PolicyResult(false, "challenge_required", None, Some("challenge_required"));
    }
    result := q.policy;
    if Matched(result) {
      var matched := FirstWith(q.grants, result.matchedGrantId.value);
      if matched.Some? {
        var check := verify(matched.value);
        if check != Keyring.Valid {
          result := PolicyResult(false, DenyCode(check), result.matchedGrantId, Some(DenyCode(check)));
        }
      }
    }
    if q.challengeId.Some? && q.challenge != Challenges.Valid {
      result := PolicyResult(false, "Challenge invalid: " + ChallengeCode(q.challenge), result.matchedGrantId, Some("challenge_invalid"));
    }
  }

  lemma JudgedIsBy(q: Inquiry, verify: GrantRow -> Keyring.SignatureResult)
    ensures !RequiredMissing(q) ==> JudgedBy(q, verify, Judged(q, verify))
    ensures RequiredMissing(q) <==> q.challengeRequired && (q.challengeId == None || q.challengeId == Some(""))
  {
    forall g: GrantRow ensures IsMatch(q, g) <==> Matched(q.policy) && FirstWith(q.grants, q.policy.matchedGrantId.value) == Some(g) {
      MatchIff(q, g);
    }
    hide IsMatch, FirstWith;
  }

  lemma MatchIff(q: Inquiry, g: GrantRow)
    ensures IsMatch(q, g) <==> Matched(q.policy) && FirstWith(q.grants, q.policy.matchedGrantId.value) == Some(g)
  {
    if Matched(q.policy) && exists j :: 0 <= j < |q.grants| && q.grants[j].fields.id == q.policy.matchedGrantId.value {
      var i := FirstIndex(q.grants, q.policy.matchedGrantId.value);
    }
  }

  /** When a request may be approved before its use is consumed. */
  predicate Approvable(q: Inquiry, verify: GrantRow -> Keyring.SignatureResult) {
    && !RequiredMissing(q)
    && q.policy.approved
    && (q.challengeId.Some? ==> q.challenge.Valid?)
    && (Matched(q.policy) ==>
          var g := FirstWith(q.grants, q.policy.matchedGrantId.value);
          g.Some? ==> verify(g.value).Valid?)
  }

  /** Under the policy's contract an approvable request has a grant in the list, and that grant's
      signature verifies exactly unless its identifier is empty, which skips the check. */
  lemma ApprovableMeans(q: Inquiry, verify: GrantRow -> Keyring.SignatureResult)
    requires PolicyContract(q.policy, q.grants)
    ensures Approvable(q, verify) <==>
      && !RequiredMissing(q) && q.policy.approved && (q.challengeId.Some? ==> q.challenge.Valid?)
      && exists i :: 0 <= i < |q.grants| && q.policy.matchedGrantId == Some(q.grants[i].fields.id)
           && (forall j :: 0 <= j < i ==> q.grants[j].fields.id != q.grants[i].fields.id)
           && (q.grants[i].fields.id != "" ==> verify(q.grants[i]).Valid?)
  {
    if q.policy.approved {
      var id := q.policy.matchedGrantId.value;
      var i := FirstIndex(q.grants, id);
      assert q.policy.matchedGrantId == Some(q.grants[i].fields.id);
      forall k | 0 <= k < |q.grants| && q.grants[k].fields.id == id && (forall j :: 0 <= j < k ==> q.grants[j].fields.id != id)
        ensures k == i
      {
      }
    }
  }

  /** What is judged approved was approvable, is the policy's own answer, and names an eligible grant of the list. */
  lemma JudgedApproved(q: Inquiry, verify: GrantRow -> Keyring.SignatureResult)
    ensures Judged(q, verify).approved <==> Approvable(q, verify)
    ensures Judged(q, verify).approved ==> Judged(q, verify) == q.policy
    ensures ApprovesEligible(q.policy, q.grants) && Judged(q, verify).approved ==>
      q.policy.matchedGrantId.Some? && exists g :: g in q.grants && g.fields.id == q.policy.matchedGrantId.value && Eligible(g)
  {
  }

  lemma {:induction false} FirstIndex(grants: seq<GrantRow>, id: string) returns (i: nat)
    requires exists j :: 0 <= j < |grants| && grants[j].fields.id == id
    ensures i < |grants| && grants[i].fields.id == id && FirstWith(grants, id) == Some(grants[i])
    ensures forall j :: 0 <= j < i ==> grants[j].fields.id != id
  {
    if grants[0].fields.id == id {
      i := 0;
    } else {
      i := FirstIndex(grants[1..], id);
      assert forall j :: 1 <= j < |grants| ==> grants[1..][j - 1] == grants[j];
      i := i + 1;
    }
  }

  // ---- the rows ----

  datatype ExecutionResult = Succeeded | Denied | Failed

  datatype Execution = Execution(result: ExecutionResult, grantId: Option<string>, errorCode: Option<string>,
                                 auditEventId: Option<string>)

  datatype Event = Event(approved: bool, reason: string, matchedGrantId: Option<string>)

  datatype Db = Db(grants: Grants, executions: map<string, Execution>, events: map<string, Event>)

  function Exhausted(r: PolicyResult): PolicyResult {
    PolicyResult(false, "grant_usage_exhausted", r.matchedGrantId, Some("grant_usage_exhausted"))
  }

  predicate Consumes(r: PolicyResult) {
    r.approved && Matched(r)
  }

  /** The result once the use has been asked for, given the grants as they then are. */
  function Settled(grants: Grants, r: PolicyResult): PolicyResult {
    if Consumes(r) && !Applies(grants, TryConsumeUse(r.matchedGrantId.value)) then Exhausted(r) else r
  }

  function RowOf(r: PolicyResult, eventId: Option<string>): Execution {
    Execution(if r.approved then Succeeded else Denied, r.matchedGrantId, if r.approved then None else r.reasonCode, eventId)
  }

  function EventOf(r: PolicyResult): Event {
    Event(r.approved, r.reason, r.matchedGrantId)
  }

  /** All that one decision writes: use, execution, event and link together. */
  function Written(db: Db, execId: string, eventId: string, judged: PolicyResult): Db {
    var r := Settled(db.grants, judged);
    Db(if Consumes(r) then After(db.grants, TryConsumeUse(r.matchedGrantId.value)) else db.grants,
       db.executions[execId := RowOf(r, Some(eventId))],
       db.events[eventId := EventOf(r)])
  }

  /** The decision asks for a use that is not there: the grant is unknown, or its uses are exhausted. */
  predicate UseRefused(grants: Grants, judged: PolicyResult) {
    && judged.approved && judged.matchedGrantId.Some? && judged.matchedGrantId.value != ""
    && (judged.matchedGrantId.value !in grants
        || (grants[judged.matchedGrantId.value].maxUses.Some?
            && grants[judged.matchedGrantId.value].useCount >= grants[judged.matchedGrantId.value].maxUses.value))
  }

  /** What one decision leaves behind, column by column. */
  predicate Records(before: Db, after: Db, execId: string, eventId: string, judged: PolicyResult) {
    var refused := UseRefused(before.grants, judged);
    var succeeded := judged.approved && !refused;
    && after.grants == (if succeeded && judged.matchedGrantId.Some? && judged.matchedGrantId.value != ""
                        then AddUse(before.grants, judged.matchedGrantId.value) else before.grants)
    && after.executions == before.executions[execId := Execution(
         if succeeded then Succeeded else Denied,
         judged.matchedGrantId,
         if succeeded then None else if refused then Some("grant_usage_exhausted") else judged.reasonCode,
         Some(eventId))]
    && after.events == before.events[eventId := Event(
         succeeded,
         if refused then "grant_usage_exhausted" else judged.reason,
         judged.matchedGrantId)]
  }

  function AddUse(grants: Grants, id: string): Grants {
    if id in grants then grants[id := grants[id].(useCount := grants[id].useCount + 1)] else grants
  }

  lemma WrittenRecords(db: Db, execId: string, eventId: string, judged: PolicyResult)
    ensures Records(db, Written(db, execId, eventId, judged), execId, eventId, judged)
  {
  }

  /** A failure record: no event. */
  function FailedRow(grantId: Option<string>): Execution {
    Execution(Failed, grantId, Some("internal_handler_error"), None)
  }

  function WithFailure(db: Db, id: string, grantId: Option<string>): Db {
    db.(executions := db.executions[id := FailedRow(grantId)])
  }

  // ---- the handler, alone ----

  /** Where the handler raises: while judging, at one of the writes, in a commit that is not applied, or
      in a commit that is applied although its answer is lost. */
  datatype Fault = NoFault | InJudging | InConsume | InRecord | InAudit | InLink | InCommit | AfterCommit

  datatype Answer = Raised | Answered(approved: bool, failed: bool, executionId: string, eventId: Option<string>)

  predicate CommitApplies(fault: Fault) {
    fault.NoFault? || fault.AfterCommit?
  }

  /** The grant id that the execution object carries when the handler fails. */
  function GrantIdAtFailure(db: Db, judged: PolicyResult, fault: Fault): Option<string> {
    if fault.InJudging? || fault.InConsume? then None else judged.matchedGrantId
  }

  /** What the handler leaves behind and answers, for every fault. */
  function Outcome(db: Db, judged: PolicyResult, execId: string, eventId: string, failureId: string, fault: Fault, recordable: bool): (Db, Answer) {
    var decided := if CommitApplies(fault) then Written(db, execId, eventId, judged) else db;
    if fault.NoFault? then (decided, Answered(Settled(db.grants, judged).approved, false, execId, Some(eventId)))
    else if recordable then (WithFailure(decided, failureId, GrantIdAtFailure(db, judged, fault)), Answered(false, true, failureId, None))
    else (decided, Raised)
  }

  class DecisionService {
    var db: Db

    constructor (db: Db)
      ensures this.db == db
    {
      this.db := db;
    }

    /** The transaction: every write goes to a copy that a rollback drops and a commit installs. */
    method WriteDecision(judged: PolicyResult, execId: string, eventId: string, fault: Fault)
      returns (result: PolicyResult, execution: Execution)
      requires execId !in db.executions && eventId !in db.events && !fault.InJudging?
      modifies this
      ensures db == if CommitApplies(fault) then Written(old(db), execId, eventId, judged) else old(db)
      ensures CommitApplies(fault) ==> result == Settled(old(db).grants, judged) && Records(old(db), db, execId, eventId, judged)
      ensures CommitApplies(fault) ==> (result.approved <==> judged.approved && !UseRefused(old(db).grants, judged))
      ensures execution.grantId == GrantIdAtFailure(old(db), judged, fault) && execution.auditEventId == None
    {
      WrittenRecords(db, execId, eventId, judged);
      hide Records;
      result, execution := judged, Execution(Denied, None, None, None);
      var grants, executions, events := db.grants, db.executions, db.events;
      if fault.InConsume? {
        return;
      }
      if Consumes(result) {
        var use := TryConsumeUse(result.matchedGrantId.value);
        if Applies(grants, use) {
          grants := After(grants, use);
        } else {
          result := Exhausted(result);
        }
      }
      execution := execution.(grantId := result.matchedGrantId);
      execution := execution.(result := if result.approved then Succeeded else Denied);
      execution := execution.(errorCode := if result.approved then None else result.reasonCode);
      if fault.InRecord? {
        return;
      }
      executions := executions[execId := execution];
      if fault.InAudit? {
        return;
      }
      events := events[eventId := EventOf(result)];
      if fault.InLink? {
        return;
      }
      executions := executions[execId := executions[execId].(auditEventId := Some(eventId))];
      if fault.InCommit? {
        return;
      }
      hide After, Applies;
      assert executions == db.executions[execId := RowOf(result, Some(eventId))];
      db := Db(grants, executions, events);
    }

    /** The identifiers are fresh. A failure record that cannot be inserted makes the handler raise. */
    method HandleDemoAction(tenantId: Option<string>, workspaceId: string, judged: PolicyResult, execId: string, eventId: string,
                            failureId: string, fault: Fault, recordable: bool) returns (a: Answer)
      requires execId != failureId && execId !in db.executions && failureId !in db.executions && eventId !in db.events
      modifies this
      ensures tenantId.None? || workspaceId == "" ==> a == Raised && db == old(db)
      ensures tenantId.Some? && workspaceId != "" ==>
        (db, a) == Outcome(old(db), judged, execId, eventId, failureId, fault, recordable)
      ensures tenantId.Some? && workspaceId != "" && fault.NoFault? ==>
        && Records(old(db), db, execId, eventId, judged)
        && a == Answered(judged.approved && !UseRefused(old(db).grants, judged), false, execId, Some(eventId))
      ensures tenantId.Some? && workspaceId != "" && !fault.NoFault? && recordable ==>
        && failureId in db.executions
        && db.executions[failureId] == Execution(Failed, if fault.InJudging? || fault.InConsume? then None else judged.matchedGrantId,
                                                 Some("internal_handler_error"), None)
    {
      hide Written, Settled;
      if tenantId.None? || workspaceId == "" {
        return Raised;
      }
      var execution := Execution(Denied, None, None, None);
      if !fault.InJudging? {
        var result: PolicyResult;
        result, execution := WriteDecision(judged, execId, eventId, fault);
        if fault.NoFault? {
          return Answered(result.approved, false, execId, Some(eventId));
        }
      }
      execution := execution.(result := Failed, errorCode := Some("internal_handler_error"));
      if !recordable {
        return Raised;
      }
      db := db.(executions := db.executions[failureId := execution]);
      a := Answered(false, true, failureId, None);
    }
  }
}
