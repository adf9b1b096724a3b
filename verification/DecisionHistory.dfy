/** What stands behind a committed decision: the moment at which its grant was listed, the reads of its
    challenge, and what others did to both in between. */
module DecisionHistory {
  import opened Wrappers
  import opened Decision
  import opened DecisionProtocol
  import Challenges
  import GrantRepository

  // ---- where a decision comes from ----

  lemma EvaluatedStep(s: State, step: Step, w: int)
    requires Enabled(s, step) && SessionOf(Next(s, step), w).Evaluated?
    ensures var k, l := SessionOf(s, w), SessionOf(Next(s, step), w);
      || (step == Evaluate(w, l.policy, l.grants) && k.Attempting? && k.execId == l.execId && l.looked.None?)
      || (k.Evaluated? && (k.execId, k.policy, k.grants) == (l.execId, l.policy, l.grants)
          && LookedStep(s, step, w, k.looked, l.looked))
  {
    hide Locked, RowOf, EventOf, Judged, ApprovesEligible, Listed, CarriedGrant, Settled, Install, WithFailure;
    hide GrantRepository.After, GrantRepository.Applies, Consumes, Challenges.Decide, Challenges.Step;
  }

  /** The read is new, or the one from before. */
  predicate LookedStep(s: State, step: Step, w: int, before: Option<Looked>, after: Option<Looked>) {
    after.Some? ==>
      if before.Some? then before.value.(marked := after.value.marked) == after.value
      else step == Look(w, after.value.call) && after.value.answer == Challenges.Decide(s.challenges, after.value.call)
  }

  /** Step i listed the grants and asked the policy for the attempt id. */
  predicate EvaluatesAt(states: seq<State>, steps: seq<Step>, i: nat, id: string, policy: PolicyResult,
                        grants: seq<GrantRepository.GrantRow>)
    requires i < |steps| && i < |states|
  {
    && steps[i].Evaluate? && steps[i].policy == policy && steps[i].grants == grants
    && SessionOf(states[i], steps[i].w).Attempting? && SessionOf(states[i], steps[i].w).execId == id
  }

  lemma {:induction false} EvaluationOrigin(grants: GrantRepository.Grants, steps: seq<Step>, states: seq<State>, n: nat, w: int)
    returns (i: nat)
    requires Run(grants, steps, states) && n <= |steps| && SessionOf(states[n], w).Evaluated?
    ensures var k := SessionOf(states[n], w);
      i < n && EvaluatesAt(states, steps, i, k.execId, k.policy, k.grants)
  {
    if n > 0 {
      EvaluatedStep(states[n - 1], steps[n - 1], w);
      hide Next, Enabled, LookedStep;
      if SessionOf(states[n - 1], w).Evaluated? {
        i := EvaluationOrigin(grants, steps, states, n - 1, w);
      } else {
        i := n - 1;
      }
    }
  }

  /** Step l read the challenge of the call for the attempt id, with the given answer. */
  predicate LooksAt(states: seq<State>, steps: seq<Step>, l: nat, id: string, call: Challenges.Call, answer: Challenges.Result)
    requires l < |steps| && l < |states|
  {
    && steps[l].Look? && steps[l].call == call && answer == Challenges.Decide(states[l].challenges, call)
    && SessionOf(states[l], steps[l].w).Evaluated? && SessionOf(states[l], steps[l].w).execId == id
  }

  lemma {:induction false} LookOrigin(grants: GrantRepository.Grants, steps: seq<Step>, states: seq<State>, n: nat, w: int)
    returns (l: nat)
    requires Run(grants, steps, states) && n <= |steps|
    requires SessionOf(states[n], w).Evaluated? && SessionOf(states[n], w).looked.Some?
    ensures var k := SessionOf(states[n], w);
      l < n && LooksAt(states, steps, l, k.execId, k.looked.value.call, k.looked.value.answer)
  {
    if n > 0 {
      EvaluatedStep(states[n - 1], steps[n - 1], w);
      hide Next, Enabled, Challenges.Decide;
      var k := SessionOf(states[n - 1], w);
      if k.Evaluated? && k.looked.Some? {
        l := LookOrigin(grants, steps, states, n - 1, w);
      } else {
        l := n - 1;
      }
    }
  }

  // ---- revocations between the judgement and the commit ----

  /** An administrator revokes the grant, and the update lands. */
  predicate Revokes(s: State, step: Step, id: string) {
    step.Administer? && step.op.Revoke? && step.op.id == id && GrantRepository.Applies(s.db.grants, step.op)
  }

  predicate IsRevoked(s: State, id: string) {
    id in s.db.grants && s.db.grants[id].revoked.Some?
  }

  ghost predicate RevokedBetween(steps: seq<Step>, states: seq<State>, i: nat, j: nat, id: string)
    requires j <= |steps| && |states| == |steps| + 1
  {
    exists k :: i <= k < j && Revokes(states[k], steps[k], id)
  }

  lemma RevokedStep(s: State, step: Step, id: string)
    requires Enabled(s, step) && id in s.db.grants
    ensures id in Next(s, step).db.grants && (IsRevoked(Next(s, step), id) <==> IsRevoked(s, id) || Revokes(s, step, id))
  {
    hide Locked, Listed, ApprovesEligible, Decidable, At, RowOf, EventOf, CarriedGrant, AfterConsume, Merge, Challenges.Step;
  }

  lemma RevokedBetweenStep(steps: seq<Step>, states: seq<State>, i: nat, j: nat, id: string)
    requires i < j <= |steps| && |states| == |steps| + 1
    ensures RevokedBetween(steps, states, i, j, id) <==>
      RevokedBetween(steps, states, i, j - 1, id) || Revokes(states[j - 1], steps[j - 1], id)
  {
    hide Revokes;
  }

  lemma NoneBetween(steps: seq<Step>, states: seq<State>, i: nat, id: string)
    requires i <= |steps| && |states| == |steps| + 1
    ensures !RevokedBetween(steps, states, i, i, id)
  {
  }

  /** Nothing undoes a revocation, and nothing else makes one. */
  lemma {:induction false} RevokedIff(grants: GrantRepository.Grants, steps: seq<Step>, states: seq<State>,
      i: nat, j: nat, id: string)
    requires Run(grants, steps, states) && i <= j <= |steps| && id in states[i].db.grants
    ensures id in states[j].db.grants
    ensures IsRevoked(states[j], id) <==> IsRevoked(states[i], id) || RevokedBetween(steps, states, i, j, id)
    decreases j
  {
    hide Next, Enabled, Revokes, IsRevoked, RevokedBetween, Init;
    if i < j {
      RevokedIff(grants, steps, states, i, j - 1, id);
      RunStep(grants, steps, states, j - 1);
      hide Run;
      RevokedStep(states[j - 1], steps[j - 1], id);
      RevokedBetweenStep(steps, states, i, j, id);
    } else {
      NoneBetween(steps, states, i, id);
    }
  }

  lemma HoldStep(s: State, step: Step, w: int, id: string)
    requires Inv(s) && Enabled(s, step) && Holds(SessionOf(Next(s, step), w), id)
    ensures var k, l := SessionOf(s, w), SessionOf(Next(s, step), w);
      k.InTx? && (k.execId, k.judged) == (l.execId, l.judged) && (Holds(k, id) || step == Consume(w))
  {
    hide Distinct, Locks, Linkage, Uses, Witnessed, Settling, Locked, Judged, RowOf, EventOf, CarriedGrant, Install, WithFailure;
    hide GrantRepository.After, GrantRepository.Applies, Challenges.Step, Challenges.Decide, Listed, ApprovesEligible;
  }

  lemma HoldIsNotRevoked(s: State, step: Step, w: int, id: string)
    requires Enabled(s, step)
    ensures Holds(SessionOf(s, w), id) || step == Consume(w) ==> !Revokes(s, step, id)
  {
    if step.Administer? && step.op.Revoke? && step.op.id == id && Holds(SessionOf(s, w), id) {
      assert Holds(s.sessions[w], id);
      assert Locked(s, id);
    }
  }

  /** The row of a grant whose use is held was locked by one Consume step, and not revoked since. */
  lemma {:induction false} HoldOrigin(grants: GrantRepository.Grants, steps: seq<Step>, states: seq<State>,
      n: nat, w: int, id: string)
    returns (u: nat)
    requires Run(grants, steps, states) && n <= |steps| && Holds(SessionOf(states[n], w), id)
    ensures u < n && steps[u] == Consume(w) && SessionOf(states[u], w).InTx?
    ensures SessionOf(states[u], w).execId == SessionOf(states[n], w).execId && SessionOf(states[u], w).judged == SessionOf(states[n], w).judged
    ensures forall k :: u <= k < n ==> !Revokes(states[k], steps[k], id)
  {
    hide Next, Enabled, Inv, Revokes;
    if n > 0 {
      RunKeepsInv(grants, steps, states, n - 1);
      RunStep(grants, steps, states, n - 1);
      HoldStep(states[n - 1], steps[n - 1], w, id);
      HoldIsNotRevoked(states[n - 1], steps[n - 1], w, id);
      if Holds(SessionOf(states[n - 1], w), id) {
        u := HoldOrigin(grants, steps, states, n - 1, w, id);
      } else {
        u := n - 1;
      }
    }
  }

  /** What the policy approved was in the table, live and with a use left, when the grants were listed. */
  lemma ListedLive(s: State, step: Step)
    requires Enabled(s, step) && step.Evaluate? && step.policy.approved
    ensures step.policy.matchedGrantId.Some?
    ensures var id := step.policy.matchedGrantId.value;
      id in s.db.grants && !IsRevoked(s, id) && GrantRepository.HasUsesLeft(s.db.grants[id])
  {
  }

  /** An approved judgement and the listing that it rests on. */
  lemma JudgementOrigin(grants: GrantRepository.Grants, steps: seq<Step>, states: seq<State>, n: nat, w: int)
    returns (i: nat, d: nat)
    requires Run(grants, steps, states) && n <= |steps| && SessionOf(states[n], w).InTx? && SessionOf(states[n], w).judged.approved
    ensures var k := SessionOf(states[n], w);
      && i < d < n && JudgedAt(states, steps, d, k.execId, k.judged)
      && steps[i].Evaluate? && EvaluatesAt(states, steps, i, k.execId, k.judged, steps[i].grants)
  {
    d := SessionOrigin(grants, steps, states, n, w);
    hide Judged;
    JudgedApproved(steps[d].inquiry, steps[d].verify);
    i := EvaluationOrigin(grants, steps, states, d, steps[d].w);
    hide Run, Answers;
  }

  lemma LinkedHolds(s: State, w: int)
    requires Inv(s) && At(s, w, Linked) && Consumes(SessionOf(s, w).result)
    ensures Holds(SessionOf(s, w), SessionOf(s, w).result.matchedGrantId.value)
  {
    assert WellFormed(SessionOf(s, w));
    hide Inv;
  }

  /** The guarded update that takes a use does not look at the flag. */
  lemma UseIgnoresRevocation(s: State, step: Step, w: int)
    requires Enabled(s, Consume(w)) && Consumes(SessionOf(s, w).result)
    requires Enabled(s, step) && Revokes(s, step, SessionOf(s, w).result.matchedGrantId.value)
    ensures Enabled(Next(s, step), Consume(w))
    ensures SessionOf(Next(Next(s, step), Consume(w)), w) == SessionOf(Next(s, Consume(w)), w)
  {
    assert Next(s, step).sessions == s.sessions;
  }

  /** A committed execution that took a use, traced back: step i listed the grant and asked the policy, step
      d judged, step u took the use and locked the row, step c committed.  The grant was live when it was
      listed.  When the row commits, the grant is revoked exactly when a revocation landed between the
      listing and the lock: none lands afterwards, and neither the use nor the commit looks at the flag. */
  lemma RevokedAtCommitIff(grants: GrantRepository.Grants, steps: seq<Step>, states: seq<State>, n: nat, e: string)
    returns (i: nat, d: nat, u: nat, c: nat)
    requires Run(grants, steps, states) && n <= |steps|
    requires e in states[n].db.executions && TookUse(states[n].db.executions[e])
    ensures i < d < u < c < n && CommitsAt(states, steps, c, e) && steps[u] == Consume(steps[c].w)
    ensures steps[i].Evaluate? && EvaluatesAt(states, steps, i, e, steps[i].policy, steps[i].grants)
    ensures JudgedAt(states, steps, d, e, steps[i].policy)
    ensures var id := states[n].db.executions[e].grantId.value;
      && steps[i].policy.matchedGrantId == Some(id)
      && id in states[i].db.grants && !IsRevoked(states[i], id)
      && (IsRevoked(states[c], id) <==> RevokedBetween(steps, states, i, u, id))
  {
    c := RowCommit(grants, steps, states, n, e);
    var w := steps[c].w;
    var id := states[n].db.executions[e].grantId.value;
    hide Inv, Next, Enabled, Revokes, Holds, IsRevoked;
    RunKeepsInv(grants, steps, states, c);
    LinkedHolds(states[c], w);
    u := HoldOrigin(grants, steps, states, c, w, id);
    i, d := JudgementOrigin(grants, steps, states, u, w);
    RunStep(grants, steps, states, i);
    ListedLive(states[i], steps[i]);
    RevokedIff(grants, steps, states, i, c, id);
    hide Run, JudgedAt, Decidable;
  }

  // ---- how much one challenge can back ----

  /** The attempt e was approved at step d on a request that names the challenge. */
  predicate BackedAt(states: seq<State>, steps: seq<Step>, d: nat, e: string, id: string)
    requires d < |steps| && d < |states|
  {
    && steps[d].Decide? && Decidable(SessionOf(states[d], steps[d].w), steps[d].inquiry)
    && SessionOf(states[d], steps[d].w).execId == e
    && Approvable(steps[d].inquiry, steps[d].verify) && steps[d].inquiry.challengeId == Some(id)
  }

  ghost predicate Backed(states: seq<State>, steps: seq<Step>, n: nat, e: string, id: string)
    requires n <= |steps| && |states| == |steps| + 1
  {
    exists d :: 0 <= d < n && BackedAt(states, steps, d, e, id)
  }

  /** Step l reads the challenge and is answered valid. */
  predicate ReadsValid(states: seq<State>, steps: seq<Step>, l: nat, id: string)
    requires l < |steps| && l < |states|
  {
    steps[l].Look? && steps[l].call.id == id && Challenges.Decide(states[l].challenges, steps[l].call).Valid?
  }

  /** Step m marks the challenge used. */
  predicate MarksAt(states: seq<State>, steps: seq<Step>, m: nat, id: string)
    requires m < |steps| && m < |states|
  {
    steps[m].Mark? && MayMark(SessionOf(states[m], steps[m].w)) && SessionOf(states[m], steps[m].w).looked.value.call.id == id
  }

  ghost function ValidReads(states: seq<State>, steps: seq<Step>, n: nat, id: string): set<nat>
    requires n <= |steps| && |states| == |steps| + 1
  {
    set l: nat | 0 <= l < n && ReadsValid(states, steps, l, id)
  }

  predicate UsedUp(s: State, id: string) {
    id in s.challenges && s.challenges[id].status.Used?
  }

  lemma StepKeepsChallenge(s: State, step: Step, id: string)
    requires Enabled(s, step)
    ensures id in s.challenges ==> id in Next(s, step).challenges
    ensures UsedUp(s, id) ==> UsedUp(Next(s, step), id)
  {
    hide Locked, Listed, ApprovesEligible, Decidable, At, RowOf, EventOf, CarriedGrant, AfterConsume, Install, WithFailure, Judged;
    hide GrantRepository.After, GrantRepository.Applies, Challenges.Decide;
  }

  lemma {:induction false} ChallengeStays(grants: GrantRepository.Grants, steps: seq<Step>, states: seq<State>,
      i: nat, j: nat, id: string)
    requires Run(grants, steps, states) && i <= j <= |steps|
    ensures id in states[i].challenges ==> id in states[j].challenges
    ensures UsedUp(states[i], id) ==> UsedUp(states[j], id)
    decreases j
  {
    hide Next, Enabled, UsedUp;
    if i < j {
      ChallengeStays(grants, steps, states, i, j - 1, id);
      StepKeepsChallenge(states[j - 1], steps[j - 1], id);
    }
  }

  /** After its mark a challenge is used. */
  lemma MarkUsesUp(grants: GrantRepository.Grants, steps: seq<Step>, states: seq<State>, m: nat, id: string)
    requires Run(grants, steps, states) && m < |steps| && MarksAt(states, steps, m, id)
    ensures UsedUp(states[m + 1], id)
  {
    var w := steps[m].w;
    var l := LookOrigin(grants, steps, states, m, w);
    ReadIsStored(states[l].challenges, SessionOf(states[m], w).looked.value.call);
    ChallengeStays(grants, steps, states, l, m, id);
    RunStep(grants, steps, states, m);
    hide Run, Challenges.Decide;
  }

  lemma ReadIsStored(challenges: Challenges.Store, call: Challenges.Call)
    ensures Challenges.Decide(challenges, call).Valid? ==> call.id in challenges && !challenges[call.id].status.Used?
  {
  }

  /** No read of a challenge is answered valid after its first mark. */
  lemma ReadsPrecedeMarks(grants: GrantRepository.Grants, steps: seq<Step>, states: seq<State>, l: nat, m: nat, id: string)
    requires Run(grants, steps, states) && l < |steps| && m < |steps|
    requires ReadsValid(states, steps, l, id) && MarksAt(states, steps, m, id)
    ensures l < m
  {
    ReadIsStored(states[l].challenges, steps[l].call);
    hide Challenges.Decide;
    if m < l {
      MarkUsesUp(grants, steps, states, m, id);
      ChallengeStays(grants, steps, states, m + 1, l, id);
      assert false;
    }
    hide Run;
  }

  lemma MarkedStep(s: State, step: Step, w: int)
    requires Enabled(s, step)
    requires var l := SessionOf(Next(s, step), w); l.Evaluated? && l.looked.Some? && l.looked.value.marked
    ensures var k, l := SessionOf(s, w), SessionOf(Next(s, step), w);
      && k.Evaluated? && k.looked.Some? && k.looked.value.call == l.looked.value.call
      && (k.looked.value.marked || (step == Mark(w) && MayMark(k)))
  {
    EvaluatedStep(s, step, w);
    hide Locked, RowOf, EventOf, Judged, ApprovesEligible, Listed, CarriedGrant, Settled, Install, WithFailure;
    hide GrantRepository.After, GrantRepository.Applies, Consumes, Challenges.Decide, Challenges.Step;
  }

  lemma {:induction false} MarkOrigin(grants: GrantRepository.Grants, steps: seq<Step>, states: seq<State>, n: nat, w: int)
    returns (m: nat)
    requires Run(grants, steps, states) && n <= |steps|
    requires var k := SessionOf(states[n], w); k.Evaluated? && k.looked.Some? && k.looked.value.marked
    ensures m < n && MarksAt(states, steps, m, SessionOf(states[n], w).looked.value.call.id)
  {
    if n > 0 {
      MarkedStep(states[n - 1], steps[n - 1], w);
      hide Next, Enabled;
      if SessionOf(states[n - 1], w).looked.value.marked {
        m := MarkOrigin(grants, steps, states, n - 1, w);
      } else {
        m := n - 1;
      }
    }
  }

  /** Whatever is approved on a challenge, the challenge has been marked before, and is used from then on. */
  lemma BackedIsUsed(grants: GrantRepository.Grants, steps: seq<Step>, states: seq<State>, d: nat, n: nat, e: string, id: string)
    returns (m: nat)
    requires Run(grants, steps, states) && d < |steps| && d <= n <= |steps| && BackedAt(states, steps, d, e, id)
    ensures m < d && MarksAt(states, steps, m, id) && UsedUp(states[n], id)
  {
    m := MarkOrigin(grants, steps, states, d, steps[d].w);
    MarkUsesUp(grants, steps, states, m, id);
    ChallengeStays(grants, steps, states, m + 1, n, id);
    hide Run;
  }

  /** The attempt whose handler makes the read. */
  function Reader(states: seq<State>, steps: seq<Step>, l: nat): string
    requires l < |steps| && l < |states|
  {
    if steps[l].Look? && SessionOf(states[l], steps[l].w).Evaluated? then SessionOf(states[l], steps[l].w).execId else ""
  }

  ghost function Readers(states: seq<State>, steps: seq<Step>, looks: set<nat>): set<string>
    requires forall l :: l in looks ==> l < |steps| && l < |states|
  {
    set l | l in looks :: Reader(states, steps, l)
  }

  /** An approved attempt read its challenge, was answered valid, and marked it. */
  lemma BackedRead(grants: GrantRepository.Grants, steps: seq<Step>, states: seq<State>, d: nat, e: string, id: string)
    returns (l: nat)
    requires Run(grants, steps, states) && d < |steps| && BackedAt(states, steps, d, e, id)
    ensures l < d && ReadsValid(states, steps, l, id) && Reader(states, steps, l) == e
  {
    l := LookOrigin(grants, steps, states, d, steps[d].w);
    hide Run, Challenges.Decide;
  }

  lemma {:induction false} ReadersAreFew(states: seq<State>, steps: seq<Step>, looks: set<nat>)
    requires forall l :: l in looks ==> l < |steps| && l < |states|
    ensures |Readers(states, steps, looks)| <= |looks|
  {
    hide Reader;
    if looks != {} {
      var l :| l in looks;
      var rest := looks - {l};
      ReadersAreFew(states, steps, rest);
      assert Readers(states, steps, looks) == Readers(states, steps, rest) + {Reader(states, steps, l)};
    }
  }

  /** The succeeded executions that were approved on requests naming the challenge. */
  ghost function BackedBy(states: seq<State>, steps: seq<Step>, n: nat, id: string): set<string>
    requires n <= |steps| && |states| == |steps| + 1
  {
    set e | e in states[n].db.executions && states[n].db.executions[e].result.Succeeded? && Backed(states, steps, n, e, id)
  }

  /** Each two valid reads have a mark between them: the calls on this challenge do not overlap. */
  ghost predicate OneAtATime(states: seq<State>, steps: seq<Step>, n: nat, id: string)
    requires n <= |steps| && |states| == |steps| + 1
  {
    forall k, l :: k in ValidReads(states, steps, n, id) && l in ValidReads(states, steps, n, id) && k < l ==>
      exists m :: k < m < l && MarksAt(states, steps, m, id)
  }

  /** One challenge backs at most as many succeeded executions as there were valid reads of it before its
      first mark, and all valid looks come before that; so at most one when the calls on it do not overlap. */
  lemma OneChallengeBacks(grants: GrantRepository.Grants, steps: seq<Step>, states: seq<State>, n: nat, id: string)
    requires Run(grants, steps, states) && n <= |steps|
    ensures |BackedBy(states, steps, n, id)| <= |ValidReads(states, steps, n, id)|
    ensures forall l, m :: l in ValidReads(states, steps, n, id) && 0 <= m < n && MarksAt(states, steps, m, id) ==> l < m
    ensures OneAtATime(states, steps, n, id) ==> |BackedBy(states, steps, n, id)| <= 1
  {
    hide BackedAt, ReadsValid, MarksAt, Reader;
    var looks := ValidReads(states, steps, n, id);
    var readers := Readers(states, steps, looks);
    ReadersAreFew(states, steps, looks);
    forall e | e in BackedBy(states, steps, n, id) ensures e in readers {
      var d :| 0 <= d < n && BackedAt(states, steps, d, e, id);
      var l := BackedRead(grants, steps, states, d, e, id);
      assert l in looks;
    }
    FewerElements(BackedBy(states, steps, n, id), readers);
    forall l, m | l in looks && 0 <= m < n && MarksAt(states, steps, m, id) ensures l < m {
      ReadsPrecedeMarks(grants, steps, states, l, m, id);
    }
    if OneAtATime(states, steps, n, id) {
      AtMostOneRead(grants, steps, states, n, id);
    }
    hide *;
  }

  lemma {:induction false} FewerElements<T>(a: set<T>, b: set<T>)
    requires a <= b
    ensures |a| <= |b|
  {
    if a != {} {
      var x :| x in a;
      FewerElements(a - {x}, b - {x});
    }
  }

  lemma AtMostOneRead(grants: GrantRepository.Grants, steps: seq<Step>, states: seq<State>, n: nat, id: string)
    requires Run(grants, steps, states) && n <= |steps| && OneAtATime(states, steps, n, id)
    ensures |ValidReads(states, steps, n, id)| <= 1
  {
    hide Next, Enabled, Init, ReadsValid, MarksAt;
    var looks := ValidReads(states, steps, n, id);
    forall k, l | k in looks && l in looks && k < l ensures false {
      var m :| k < m < l && MarksAt(states, steps, m, id);
      ReadsPrecedeMarks(grants, steps, states, l, m, id);
      assert false;
    }
    hide ValidReads, OneAtATime;
    if looks != {} {
      var k :| k in looks;
      forall l | l in looks ensures l == k {
        assert !(k < l) && !(l < k);
      }
      FewerElements(looks, {k});
    }
  }
}
