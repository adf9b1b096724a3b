/** The grants table and its guarded updates. */
module GrantRepository {
  import opened Wrappers
  import opened GrantPayload

  datatype Signature = Signature(text: Option<string>, keyId: Option<string>, payloadHash: Option<string>)

  datatype Revocation = Revocation(revokedBy: string, reason: string, revokedAt: string)

  /** A row; fields.id is the primary key, and revoked is the flag with what was stored beside it. */
  datatype GrantRow = GrantRow(fields: GrantFields, signature: Signature, revoked: Option<Revocation>,
                               maxUses: Option<int>, useCount: int, tenantId: string, workspaceId: string)

  type Grants = map<string, GrantRow>

  /** The optional WHERE clauses on tenant and workspace. */
  predicate InScope(row: GrantRow, tenantId: Option<string>, workspaceId: Option<string>) {
    (tenantId.Some? ==> row.tenantId == tenantId.value) && (workspaceId.Some? ==> row.workspaceId == workspaceId.value)
  }

  predicate Live(grants: Grants, id: string, tenantId: Option<string>, workspaceId: Option<string>) {
    id in grants && grants[id].revoked.None? && InScope(grants[id], tenantId, workspaceId)
  }

  predicate HasUsesLeft(row: GrantRow) {
    row.maxUses.None? || row.useCount < row.maxUses.value
  }

  datatype Operation =
    | Create(row: GrantRow)
    | Revoke(id: string, revocation: Revocation, tenantId: Option<string>, workspaceId: Option<string>)
    | Renew(id: string, validUntil: string, signature: Signature, tenantId: Option<string>, workspaceId: Option<string>)
    | TryConsumeUse(id: string)

  /** Whether the statement changes a row: for the updates, a positive row count. */
  predicate Applies(grants: Grants, op: Operation) {
    match op
    case Create(row) => row.workspaceId != "" && row.fields.id !in grants
    case Revoke(id, _, t, w) => Live(grants, id, t, w)
    case Renew(id, _, _, t, w) => Live(grants, id, t, w)
    case TryConsumeUse(id) => id in grants && HasUsesLeft(grants[id])
  }

  function Renewed(row: GrantRow, validUntil: string, signature: Signature): GrantRow {
    row.(fields := row.fields.(validUntil := validUntil), signature := signature)
  }

  function After(grants: Grants, op: Operation): Grants {
    if !Applies(grants, op) then grants
    else
      match op
      case Create(row) => grants[row.fields.id := row.(revoked := None)]
      case Revoke(id, r, _, _) => grants[id := grants[id].(revoked := Some(r))]
      case Renew(id, validUntil, signature, _, _) => grants[id := Renewed(grants[id], validUntil, signature)]
      case TryConsumeUse(id) => grants[id := grants[id].(useCount := grants[id].useCount + 1)]
  }

  /** The same rows, and none but `id` changed. */
  predicate OthersKept(before: Grants, after: Grants, id: string) {
    after.Keys == before.Keys && forall k :: k in before && k != id ==> after[k] == before[k]
  }

  class SqlAlchemyGrantRepository {
    var grants: Grants

    constructor ()
      ensures grants == map[]
    {
      grants := map[];
    }

    /** False where the insert raises. */
    method DoCreate(row: GrantRow) returns (ok: bool)
      modifies this
      ensures grants == After(old(grants), Create(row))
      ensures ok <==> row.workspaceId != "" && row.fields.id !in old(grants)
      ensures !ok ==> grants == old(grants)
      ensures ok ==> grants == old(grants)[row.fields.id := row.(revoked := None)]
    {
      ok := row.workspaceId != "" && row.fields.id !in grants;
      if ok {
        grants := grants[row.fields.id := row.(revoked := None)];
      }
    }

    method DoRevoke(id: string, revocation: Revocation, tenantId: Option<string>, workspaceId: Option<string>)
      returns (changed: bool)
      modifies this
      ensures grants == After(old(grants), Revoke(id, revocation, tenantId, workspaceId))
      ensures changed <==>
        && id in old(grants) && old(grants)[id].revoked.None?
        && (tenantId.Some? ==> old(grants)[id].tenantId == tenantId.value)
        && (workspaceId.Some? ==> old(grants)[id].workspaceId == workspaceId.value)
      ensures OthersKept(old(grants), grants, id) && (!changed ==> grants == old(grants))
      ensures changed ==> grants[id] == old(grants)[id].(revoked := Some(revocation)) && !Live(grants, id, tenantId, workspaceId)
    {
      changed := Live(grants, id, tenantId, workspaceId);
      if changed {
        grants := grants[id := grants[id].(revoked := Some(revocation))];
      }
    }

    method DoRenew(id: string, validUntil: string, signature: Signature, tenantId: Option<string>, workspaceId: Option<string>)
      returns (changed: bool)
      modifies this
      ensures grants == After(old(grants), Renew(id, validUntil, signature, tenantId, workspaceId))
      ensures changed <==>
        && id in old(grants) && old(grants)[id].revoked.None?
        && (tenantId.Some? ==> old(grants)[id].tenantId == tenantId.value)
        && (workspaceId.Some? ==> old(grants)[id].workspaceId == workspaceId.value)
      ensures OthersKept(old(grants), grants, id) && (!changed ==> grants == old(grants))
      ensures changed ==>
        && grants[id].fields.validUntil == validUntil && grants[id].signature == signature
        && old(grants)[id] == grants[id].(fields := old(grants)[id].fields, signature := old(grants)[id].signature)
        && grants[id].fields == old(grants)[id].fields.(validUntil := validUntil)
    {
      changed := Live(grants, id, tenantId, workspaceId);
      if changed {
        var row := grants[id];
        grants := grants[id := row.(fields := row.fields.(validUntil := validUntil), signature := signature)];
      }
    }

    method DoTryConsumeUse(id: string) returns (changed: bool)
      modifies this
      ensures grants == After(old(grants), TryConsumeUse(id))
      ensures changed <==> id in old(grants) && (old(grants)[id].maxUses.Some? ==> old(grants)[id].useCount < old(grants)[id].maxUses.value)
      ensures OthersKept(old(grants), grants, id) && (!changed ==> grants == old(grants))
      ensures changed ==> grants[id] == old(grants)[id].(useCount := old(grants)[id].useCount + 1)
      ensures changed && grants[id].maxUses.Some? ==> grants[id].useCount <= grants[id].maxUses.value
    {
      changed := id in grants && HasUsesLeft(grants[id]);
      if changed {
        grants := grants[id := grants[id].(useCount := grants[id].useCount + 1)];
      }
    }
  }

  // ---- runs ----

  function Run(grants: Grants, ops: seq<Operation>): Grants {
    if ops == [] then grants else After(Run(grants, ops[..|ops| - 1]), ops[|ops| - 1])
  }

  /** Number of uses of id that the run consumed. */
  function Consumed(grants: Grants, ops: seq<Operation>, id: string): nat {
    if ops == [] then 0
    else
      var front, op := ops[..|ops| - 1], ops[|ops| - 1];
      Consumed(grants, front, id) + (if op == TryConsumeUse(id) && Applies(Run(grants, front), op) then 1 else 0)
  }

  /** Over any run the use count of a grant is its initial value plus the uses that were granted, never
      above a maximum that it did not exceed at first; nothing but the date is ever changed among its
      signed fields, and nothing at all among its limits and its scope. */
  lemma {:induction false} UsesAreConserved(grants: Grants, ops: seq<Operation>, id: string)
    requires id in grants
    ensures id in Run(grants, ops)
    ensures var a, b := grants[id], Run(grants, ops)[id];
      && b.useCount == a.useCount + Consumed(grants, ops, id)
      && (a.maxUses.Some? && a.useCount <= a.maxUses.value ==> b.useCount <= a.maxUses.value)
      && b.fields == a.fields.(validUntil := b.fields.validUntil)
      && (b.maxUses, b.tenantId, b.workspaceId) == (a.maxUses, a.tenantId, a.workspaceId)
  {
    if ops != [] { UsesAreConserved(grants, ops[..|ops| - 1], id); }
  }

  /** Once revoked, a grant keeps its revocation, its dates and its signature for ever: no renewal and no
      second revocation lands. */
  lemma {:induction false} RevocationIsFinal(grants: Grants, ops: seq<Operation>, id: string)
    requires id in grants && grants[id].revoked.Some?
    ensures id in Run(grants, ops)
    ensures Run(grants, ops)[id] == grants[id].(useCount := Run(grants, ops)[id].useCount)
  {
    if ops != [] { RevocationIsFinal(grants, ops[..|ops| - 1], id); }
  }
}
