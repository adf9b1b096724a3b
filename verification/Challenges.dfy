/** The challenge store: creation, validation and single use. */
module Challenges {
  import opened Wrappers
  import opened Timestamps

  const MAX_SHORT_ID_LENGTH := 128
  const MAX_NAME_LENGTH := 256

  datatype Status = Active | Used | Expired

  datatype Result = Valid | NotFound | ExpiredResult | AlreadyUsed | Mismatch

  datatype Challenge = Challenge(subjectId: string, action: string, resource: string, expiresAt: string,
                                 usedAt: Option<string>, status: Status, tenantId: string, workspaceId: string)

  type Store = map<string, Challenge>

  /** The arguments of a call to validate_challenge, with the two clock readings it makes. */
  datatype Call = Call(id: string, subjectId: string, action: string, resource: string,
                       tenantId: Option<string>, now: Instant, usedAt: Instant)

  datatype Operation =
    | Create(id: string, subjectId: string, action: string, resource: string, expires: Instant,
             tenantId: Option<string>, workspaceId: Option<string>)
    | Validate(call: Call)

  /** SELECT ... WHERE id = ? [AND tenant_id = ?] */
  function Get(s: Store, id: string, tenantId: Option<string>): Option<Challenge> {
    if id in s && (tenantId.None? || s[id].tenantId == tenantId.value) then Some(s[id]) else None
  }

  /** What validate_challenge answers, in the order of its checks. */
  function Decide(s: Store, c: Call): Result {
    match Get(s, c.id, c.tenantId)
    case None => NotFound
    case Some(ch) =>
      if StrLess(ch.expiresAt, Render(c.now)) then ExpiredResult
      else if ch.status == Used then AlreadyUsed
      else if ch.subjectId != c.subjectId || ch.action != c.action || ch.resource != c.resource then Mismatch
      else Valid
  }

  function Marked(ch: Challenge, usedAt: Instant): Challenge {
    ch.(usedAt := Some(Render(usedAt)), status := Used)
  }

  function AfterValidate(s: Store, c: Call): Store {
    if Decide(s, c) == Valid then s[c.id := Marked(s[c.id], c.usedAt)] else s
  }

  predicate Creatable(s: Store, o: Operation)
    requires o.Create?
  {
    && |o.subjectId| <= MAX_SHORT_ID_LENGTH && |o.action| <= MAX_NAME_LENGTH && |o.resource| <= MAX_NAME_LENGTH
    && o.tenantId.Some?
    && o.id !in s
  }

  /** The store after one operation; a creation that raises leaves it alone. */
  function Step(s: Store, o: Operation): Store {
    match o
    case Create(id, subject, action, resource, expires, tenant, workspace) =>
      if Creatable(s, o) then
        s[id := Challenge(subject, action, resource, Render(expires), None, Active, tenant.value,
                          if workspace.Some? then workspace.value else "default")]
      else s
    case Validate(c) => AfterValidate(s, c)
  }

  /** The table, with the two operations as the module runs them: a read, then an update. */
  class ChallengeStore {
    var rows: Store

    constructor ()
      ensures rows == map[]
    {
      rows := map[];
    }

    method CreateChallenge(id: string, subjectId: string, action: string, resource: string, expires: Instant,
                           tenantId: Option<string>, workspaceId: Option<string>) returns (ok: bool)
      modifies this
      ensures rows == Step(old(rows), Create(id, subjectId, action, resource, expires, tenantId, workspaceId))
      ensures ok <==> |subjectId| <= 128 && |action| <= 256 && |resource| <= 256 && tenantId.Some? && id !in old(rows)
      ensures forall k :: k in old(rows) ==> k in rows && rows[k] == old(rows)[k]
      ensures ok ==>
        && id !in old(rows) && rows.Keys == old(rows).Keys + {id}
        && rows[id].status == Active && rows[id].usedAt.None? && rows[id].expiresAt == Render(expires)
        && (rows[id].subjectId, rows[id].action, rows[id].resource) == (subjectId, action, resource)
        && tenantId == Some(rows[id].tenantId) && rows[id].workspaceId == (if workspaceId.Some? then workspaceId.value else "default")
    {
      if |subjectId| > MAX_SHORT_ID_LENGTH || |action| > MAX_NAME_LENGTH || |resource| > MAX_NAME_LENGTH {
        return false;
      }
      if tenantId.None? {
        return false;
      }
      if id in rows {
        return false;
      }
      var workspace := if workspaceId.Some? then workspaceId.value else "default";
      rows := rows[id := Challenge(subjectId, action, resource, Render(expires), None, Active, tenantId.value, workspace)];
      ok := true;
    }

    method MarkUsed(id: string, usedAt: Instant)
      modifies this
      ensures rows == if id in old(rows)
                      then old(rows)[id := old(rows)[id].(status := Used, usedAt := Some(Render(usedAt)))]
                      else old(rows)
    {
      if id in rows {
        rows := rows[id := Marked(rows[id], usedAt)];
      }
    }

    method ValidateChallenge(c: Call) returns (r: Result)
      modifies this
      ensures r == Decide(old(rows), c)
      ensures r == NotFound <==> c.id !in old(rows) || (c.tenantId.Some? && c.tenantId.value != old(rows)[c.id].tenantId)
      ensures r == ExpiredResult <==> r != NotFound && StrLess(old(rows)[c.id].expiresAt, Render(c.now))
      ensures r == AlreadyUsed <==> r !in {NotFound, ExpiredResult} && old(rows)[c.id].status == Used
      ensures r == Mismatch <==>
        && r !in {NotFound, ExpiredResult, AlreadyUsed}
        && (old(rows)[c.id].subjectId != c.subjectId || old(rows)[c.id].action != c.action || old(rows)[c.id].resource != c.resource)
      ensures rows == AfterValidate(old(rows), c)
      ensures rows.Keys == old(rows).Keys && forall k :: k in rows && k != c.id ==> rows[k] == old(rows)[k]
      ensures r != Valid ==> rows == old(rows)
      ensures r == Valid ==>
        && c.id in rows && old(rows)[c.id].status != Used
        && rows[c.id].status == Used && rows[c.id].usedAt == Some(Render(c.usedAt))
        && rows[c.id] == old(rows)[c.id].(status := Used, usedAt := rows[c.id].usedAt)
        && (rows[c.id].subjectId, rows[c.id].action, rows[c.id].resource) == (c.subjectId, c.action, c.resource)
    {
      var challenge := Get(rows, c.id, c.tenantId);
      if challenge.None? {
        return NotFound;
      }
      if StrLess(challenge.value.expiresAt, Render(c.now)) {
        return ExpiredResult;
      }
      if challenge.value.status == Used {
        return AlreadyUsed;
      }
      if challenge.value.subjectId != c.subjectId || challenge.value.action != c.action
         || challenge.value.resource != c.resource {
        return Mismatch;
      }
      MarkUsed(c.id, c.usedAt);
      r := Valid;
    }
  }

  // ---- runs ----

  /** The store after a sequence of operations. */
  function Run(s: Store, ops: seq<Operation>): Store {
    if ops == [] then s else Step(Run(s, ops[..|ops| - 1]), ops[|ops| - 1])
  }

  /** Operation i of the run is a validation of id that answered valid. */
  predicate ValidAt(s: Store, ops: seq<Operation>, i: nat, id: string)
    requires i < |ops|
  {
    ops[i].Validate? && ops[i].call.id == id && Decide(Run(s, ops[..i]), ops[i].call) == Valid
  }

  lemma StepKeepsUsed(s: Store, o: Operation, id: string)
    requires id in s && s[id].status == Used
    ensures id in Step(s, o) && Step(s, o)[id].status == Used
  {
    hide Render, StrLess;
  }

  /** A used challenge stays used. */
  lemma {:induction false} UsedForever(s: Store, ops: seq<Operation>, i: nat, j: nat, id: string)
    requires i <= j <= |ops|
    requires id in Run(s, ops[..i]) && Run(s, ops[..i])[id].status == Used
    ensures id in Run(s, ops[..j]) && Run(s, ops[..j])[id].status == Used
    decreases j
  {
    if i < j {
      UsedForever(s, ops, i, j - 1, id);
      assert ops[..j][..j - 1] == ops[..j - 1];
      StepKeepsUsed(Run(s, ops[..j - 1]), ops[j - 1], id);
      hide Step;
    }
  }

  lemma ValidIsUsed(s: Store, ops: seq<Operation>, i: nat, id: string)
    requires i < |ops| && ValidAt(s, ops, i, id)
    ensures id in Run(s, ops[..i + 1]) && Run(s, ops[..i + 1])[id].status == Used
  {
    hide Render, StrLess;
    assert ops[..i + 1][..i] == ops[..i];
  }

  /** Over any sequence of operations each challenge is valid at most once. */
  lemma ValidAtMostOnce(s: Store, ops: seq<Operation>, i: nat, j: nat, id: string)
    requires i < |ops| && j < |ops| && ValidAt(s, ops, i, id) && ValidAt(s, ops, j, id)
    ensures i == j
  {
    var lo, hi := if i < j then i else j, if i < j then j else i;
    if lo < hi {
      ValidIsUsed(s, ops, lo, id);
      UsedForever(s, ops, lo + 1, hi, id);
      hide Run, Step;
      assert false;
    }
  }

  /** The terms of a challenge never change once it exists. */
  lemma {:induction false} TermsNeverChange(s: Store, ops: seq<Operation>, id: string)
    requires id in s
    ensures id in Run(s, ops)
    ensures var a, b := s[id], Run(s, ops)[id];
      && b.subjectId == a.subjectId && b.action == a.action && b.resource == a.resource
      && b.expiresAt == a.expiresAt && b.tenantId == a.tenantId
  {
    if ops != [] { TermsNeverChange(s, ops[..|ops| - 1], id); }
  }

  /** A challenge created with an expiry is valid only for its own subject, action, resource and
      tenant, and never at an instant after the expiry, unless that instant lies in the same second
      and the expiry has zero microseconds while the instant has not. */
  lemma ValidMeansOwnAndFresh(s: Store, create: Operation, ops: seq<Operation>, c: Call)
    requires create.Create? && Creatable(s, create) && c.id == create.id
    requires IsInstant(create.expires) && IsInstant(c.now)
    requires Decide(Run(Step(s, create), ops), c) == Valid
    ensures c.subjectId == create.subjectId && c.action == create.action && c.resource == create.resource
    ensures c.tenantId.Some? ==> c.tenantId == create.tenantId
    ensures Before(create.expires, c.now)
            ==> SameSecond(create.expires, c.now) && create.expires.micro == 0 && c.now.micro != 0
  {
    hide Render, StrLess;
    TermsNeverChange(Step(s, create), ops, create.id);
    StringOrderIsTimeOrder(create.expires, c.now);
    if SameSecond(create.expires, c.now) { FieldsLessIrreflexive(Fields(create.expires)); }
  }

  /** Exactly when a challenge that is still unused, after any operations, is answered valid to a matching
      call: until it expires, except within the second of expiry when exactly one of the two instants
      has zero microseconds; there the answer depends on which one, not on the time. */
  lemma ExpiryIff(s: Store, create: Operation, ops: seq<Operation>, c: Call)
    requires create.Create? && Creatable(s, create) && c.id == create.id
    requires IsInstant(create.expires) && IsInstant(c.now)
    requires c.subjectId == create.subjectId && c.action == create.action && c.resource == create.resource
    requires c.tenantId.None? || c.tenantId == create.tenantId
    requires var now := Run(Step(s, create), ops); c.id in now ==> now[c.id].status != Used
    ensures Decide(Run(Step(s, create), ops), c) == Valid <==>
      if SameSecond(create.expires, c.now) && (create.expires.micro == 0) != (c.now.micro == 0)
      then create.expires.micro == 0
      else !Before(create.expires, c.now)
  {
    hide Render, StrLess;
    TermsNeverChange(Step(s, create), ops, create.id);
    StringOrderIsTimeOrder(create.expires, c.now);
    if SameSecond(create.expires, c.now) { FieldsLessIrreflexive(Fields(create.expires)); }
    hide Run;
  }

  // ---- calls that overlap ----

  /** The separate statements of the calls: a creation, the read with its decision, and the update. */
  datatype Statement = Insert(create: Operation) | Look(call: Call) | Mark(id: string, usedAt: Instant)

  function Execute(s: Store, t: Statement): Store {
    match t
    case Insert(create) => if create.Create? then Step(s, create) else s
    case Look(_) => s
    case Mark(id, usedAt) => if id in s then s[id := Marked(s[id], usedAt)] else s
  }

  function ExecuteAll(s: Store, ts: seq<Statement>): Store {
    if ts == [] then s else Execute(ExecuteAll(s, ts[..|ts| - 1]), ts[|ts| - 1])
  }

  predicate Marks(t: Statement, id: string) {
    t.Mark? && t.id == id
  }

  /** The statements that one operation runs when nothing comes in between. */
  function StatementsOf(s: Store, o: Operation): seq<Statement> {
    match o
    case Create(_, _, _, _, _, _, _) => [Insert(o)]
    case Validate(c) => if Decide(s, c) == Valid then [Look(c), Mark(c.id, c.usedAt)] else [Look(c)]
  }

  lemma OperationIsItsStatements(s: Store, o: Operation)
    ensures ExecuteAll(s, StatementsOf(s, o)) == Step(s, o)
  {
    if o.Validate? { ValidIsStored(s, o.call); }
    hide Decide, Marked, Creatable;
    var ts := StatementsOf(s, o);
    assert ts[..|ts| - 1] == [] || ts[..|ts| - 1] == [ts[0]];
    assert [ts[0]][..0] == [] && ExecuteAll(s, [ts[0]]) == Execute(s, ts[0]);
  }

  lemma {:induction false} ExecuteAppend(s: Store, front: seq<Statement>, back: seq<Statement>)
    ensures ExecuteAll(s, front + back) == ExecuteAll(ExecuteAll(s, front), back)
  {
    hide Execute;
    if back == [] {
      assert front + back == front;
    } else {
      ExecuteAppend(s, front, back[..|back| - 1]);
      assert (front + back)[..|front + back| - 1] == front + back[..|back| - 1];
    }
  }

  /** The statements of a run of whole operations, each finished before the next begins. */
  function Flattened(s: Store, ops: seq<Operation>): seq<Statement> {
    if ops == [] then []
    else
      var front := ops[..|ops| - 1];
      Flattened(s, front) + StatementsOf(Run(s, front), ops[|ops| - 1])
  }

  /** Where calls do not overlap, running the statements is running the operations. */
  lemma {:induction false} SerialRunIsRun(s: Store, ops: seq<Operation>)
    ensures ExecuteAll(s, Flattened(s, ops)) == Run(s, ops)
  {
    hide StatementsOf, Step, Execute;
    if ops != [] {
      var front, last := ops[..|ops| - 1], ops[|ops| - 1];
      SerialRunIsRun(s, front);
      OperationIsItsStatements(Run(s, front), last);
      ExecuteAppend(s, Flattened(s, front), StatementsOf(Run(s, front), last));
    }
  }

  lemma ValidIsStored(s: Store, c: Call)
    ensures Decide(s, c) == Valid ==> c.id in s
  {
  }

  /** One of the statements i to j - 1 updates the challenge. */
  ghost predicate MarkedBetween(ts: seq<Statement>, i: nat, j: nat, id: string)
    requires i <= j <= |ts|
  {
    exists k :: i <= k < j && Marks(ts[k], id)
  }

  lemma MarkedStep(ts: seq<Statement>, i: nat, j: nat, id: string)
    requires i < j <= |ts|
    ensures MarkedBetween(ts, i, j, id) <==> MarkedBetween(ts, i, j - 1, id) || Marks(ts[j - 1], id)
  {
  }

  lemma ExecuteStep(s: Store, ts: seq<Statement>, j: nat)
    requires 0 < j <= |ts|
    ensures ExecuteAll(s, ts[..j]) == Execute(ExecuteAll(s, ts[..j - 1]), ts[j - 1])
  {
    assert ts[..j][..j - 1] == ts[..j - 1];
    hide Execute;
  }

  lemma {:induction false} AnswerBetween(s: Store, ts: seq<Statement>, i: nat, j: nat, c: Call)
    requires i <= j <= |ts| && Decide(ExecuteAll(s, ts[..i]), c) == Valid
    ensures Decide(ExecuteAll(s, ts[..j]), c) == if MarkedBetween(ts, i, j, c.id) then AlreadyUsed else Valid
    decreases j
  {
    hide Decide, Execute, ExecuteAll, Marks;
    if i < j {
      AnswerBetween(s, ts, i, j - 1, c);
      MarkedStep(ts, i, j, c.id);
      hide MarkedBetween;
      ExecuteStep(s, ts, j);
      StatementKeepsAnswer(ExecuteAll(s, ts[..j - 1]), ts[j - 1], c);
    }
  }

  lemma StatementKeepsAnswer(s: Store, t: Statement, c: Call)
    requires Decide(s, c) == Valid || Decide(s, c) == AlreadyUsed
    ensures Decide(Execute(s, t), c) == if Marks(t, c.id) then AlreadyUsed else Decide(s, c)
  {
    hide Render, StrLess;
  }

  /** Two overlapping calls on one challenge.  Call c reads at statement i and is answered valid, and d
      would be too; d reads later, at j.  Both are answered valid exactly when no update of that challenge
      lies between the two reads. */
  lemma BothValidIff(s: Store, ts: seq<Statement>, i: nat, j: nat, c: Call, d: Call)
    requires i < j < |ts| && ts[i] == Look(c) && ts[j] == Look(d) && c.id == d.id
    requires Decide(ExecuteAll(s, ts[..i]), c) == Valid && Decide(ExecuteAll(s, ts[..i]), d) == Valid
    ensures Decide(ExecuteAll(s, ts[..j]), d) == Valid <==> forall k :: i < k < j ==> !Marks(ts[k], c.id)
    ensures Decide(ExecuteAll(s, ts[..j]), d) != Valid ==> Decide(ExecuteAll(s, ts[..j]), d) == AlreadyUsed
  {
    AnswerBetween(s, ts, i, j, d);
    hide Decide, ExecuteAll;
    assert !Marks(ts[i], c.id);
  }
}
