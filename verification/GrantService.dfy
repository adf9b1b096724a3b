/** Creating, revoking and renewing grants: sign first, then one guarded write, and its audit event in the
    same transaction. */
module GrantService {
  import opened Wrappers
  import opened GrantPayload
  import opened GrantRepository
  import opened Keyring

  datatype Answer = SigningRefused | InsertRefused | NotChanged | AuditFailed | Stored(row: GrantRow)

  /** The audit events of the service. */
  datatype Event =
    | Created(grantId: string, subjectId: string, reason: string, tenantId: string, workspaceId: string)
    | Revoked(grantId: string, revokedBy: string, reason: string, tenantId: string, workspaceId: string)
    | Renewed(grantId: string, renewedBy: string, previous: string, until: string, tenantId: string, workspaceId: string)

  /** An operator who is named replaces the creator that the request gives. */
  function CreatedBy(grant: GrantRow, operatorId: Option<string>): GrantRow {
    if Truthy(operatorId) then grant.(fields := grant.fields.(createdBy := operatorId.value)) else grant
  }

  function CreatedEvent(row: GrantRow): Event {
    Created(row.fields.id, row.fields.subjectId, "grant_created: " + row.fields.reason, row.tenantId, row.workspaceId)
  }

  // ---- what the events say ----

  /** The grants that exist, those that are revoked, and the end dates that were set by renewals. */
  datatype Tally = Tally(created: set<string>, revoked: set<string>, dates: map<string, string>)

  function Counted(t: Tally, e: Event): Tally {
    match e
    case Created(id, _, _, _, _) => t.(created := t.created + {id})
    case Revoked(id, _, _, _, _) => t.(revoked := t.revoked + {id})
    case Renewed(id, _, _, until, _, _) => t.(dates := t.dates[id := until])
  }

  function Told(log: seq<Event>): Tally {
    if log == [] then Tally({}, {}, map[]) else Counted(Told(log[..|log| - 1]), log[|log| - 1])
  }

  /** The events tell which grants exist, which are revoked, and to when they were last renewed. */
  ghost predicate Accounted(grants: Grants, log: seq<Event>) {
    var t := Told(log);
    && t.created == grants.Keys
    && (forall id :: id in grants ==> (grants[id].revoked.Some? <==> id in t.revoked))
    && t.revoked <= grants.Keys
    && forall id :: id in t.dates ==> id in grants && grants[id].fields.validUntil == t.dates[id]
  }

  lemma ToldAppend(log: seq<Event>, e: Event)
    ensures Told(log + [e]) == Counted(Told(log), e)
  {
    assert (log + [e])[..|log|] == log;
  }

  /** A grant is created live, whatever the request says. */
  lemma CreatedLive(grants: Grants, row: GrantRow)
    ensures After(grants, Create(row)) == After(grants, Create(row.(revoked := None)))
  {
  }

  lemma CreationIsTold(grants: Grants, log: seq<Event>, row: GrantRow)
    requires Accounted(grants, log) && row.fields.id !in grants && row.revoked.None?
    ensures Accounted(grants[row.fields.id := row], log + [CreatedEvent(row)])
  {
    ToldAppend(log, CreatedEvent(row));
    hide Told;
  }

  lemma RevocationIsTold(grants: Grants, log: seq<Event>, after: Grants, id: string, e: Event)
    requires Accounted(grants, log) && OthersKept(grants, after, id) && id in grants
    requires after[id].revoked.Some? && after[id].fields == grants[id].fields && e.Revoked? && e.grantId == id
    ensures Accounted(after, log + [e])
  {
    ToldAppend(log, e);
    hide Told;
  }

  lemma RenewalIsTold(grants: Grants, log: seq<Event>, after: Grants, id: string, e: Event)
    requires Accounted(grants, log) && OthersKept(grants, after, id) && id in grants
    requires after[id].revoked == grants[id].revoked && e.Renewed? && e.grantId == id && after[id].fields.validUntil == e.until
    ensures Accounted(after, log + [e])
  {
    ToldAppend(log, e);
    hide Told;
  }

  class GrantService {
    const keys: KeyStore
    const repo: SqlAlchemyGrantRepository
    var log: seq<Event>

    constructor (keys: KeyStore, repo: SqlAlchemyGrantRepository)
      ensures this.keys == keys && this.repo == repo && log == []
    {
      this.keys, this.repo, log := keys, repo, [];
    }

    /** Nothing is stored that does not verify: what is stored carries the signature just made.  Where the
        event cannot be appended the session is rolled back. */
    method CreateGrant(grant: GrantRow, operatorId: Option<string>, generated: string, auditFails: bool,
                       ghost publicKeys: set<string>) returns (a: Answer)
      requires Fair(keys.scheme)
      modifies this`log, keys, repo
      ensures !a.Stored? ==> repo.grants == old(repo.grants) && log == old(log)
      ensures !a.NotChanged? && keys.OnDisk() == Baseline(keys.scheme, old(keys.OnDisk()), generated)
      ensures a.SigningRefused? <==> Sign(keys.scheme, old(keys.OnDisk()), CreatedBy(grant, operatorId).fields, generated).None?
      ensures a.InsertRefused? <==> !a.SigningRefused? && (grant.workspaceId == "" || grant.fields.id in old(repo.grants))
      ensures a.AuditFailed? <==> !a.SigningRefused? && !a.InsertRefused? && auditFails
      ensures a.Stored? ==>
        && !auditFails
        && log == old(log) + [Created(grant.fields.id, grant.fields.subjectId, "grant_created: " + grant.fields.reason,
                                      grant.tenantId, grant.workspaceId)]
        && grant.fields.id !in old(repo.grants) && repo.grants == old(repo.grants)[grant.fields.id := a.row]
        && a.row == grant.(signature := a.row.signature, revoked := None, fields := a.row.fields)
        && a.row.fields == (if operatorId.None? || operatorId == Some("") then grant.fields else grant.fields.(createdBy := operatorId.value))
      ensures a.Stored? && Trusted(keys.scheme, publicKeys, old(keys.OnDisk()), generated) ==>
        Verdict(keys.scheme, keys.OnDisk(), a.row.fields, a.row.signature) == Valid
      ensures old(Accounted(repo.grants, log)) ==> Accounted(repo.grants, log)
      ensures !auditFails ==> forall renewals ::
        System(keys.OnDisk(), repo.grants, renewals) ==
        Step(keys.scheme, System(old(keys.OnDisk()), old(repo.grants), renewals), Keyring.CreateGrant(CreatedBy(grant, operatorId), generated))
    {
      hide Baseline, Verdict, Sign, After, Applies, Accounted, CanonicalPayload, DeriveKeyId, Distinct, WellFiled, UsesOnly;
      ghost var before := keys.OnDisk();
      var row := CreatedBy(grant, operatorId);
      var signature := keys.SignGrant(row.fields, generated);
      if signature.None? {
        return SigningRefused;
      }
      if Trusted(keys.scheme, publicKeys, before, generated) {
        SignedVerifies(keys.scheme, publicKeys, before, row.fields, generated);
      }
      var signed := row.(signature := signature.value, revoked := None);
      var committed := repo.grants;
      CreatedLive(committed, row.(signature := signature.value));
      var ok := repo.DoCreate(signed);
      if !ok {
        return InsertRefused;
      }
      if auditFails {
        repo.grants := committed;
        return AuditFailed;
      }
      if Accounted(committed, log) { CreationIsTold(committed, log, signed); }
      log := log + [CreatedEvent(signed)];
      a := Stored(signed);
    }

    /** Authority is not removed without an event. */
    method RevokeGrant(id: string, tenantId: string, workspaceId: string, revocation: Revocation, auditFails: bool)
      returns (a: Answer)
      modifies this`log, repo
      ensures !a.Stored? ==> repo.grants == old(repo.grants) && log == old(log)
      ensures a.NotChanged? <==>
        || id !in old(repo.grants) || old(repo.grants)[id].revoked.Some?
        || old(repo.grants)[id].tenantId != tenantId || old(repo.grants)[id].workspaceId != workspaceId
      ensures a.AuditFailed? <==> !a.NotChanged? && auditFails
      ensures !a.SigningRefused? && !a.InsertRefused?
      ensures a.Stored? ==>
        && log == old(log) + [Revoked(id, revocation.revokedBy, "grant_revoked: " + revocation.reason, tenantId, workspaceId)]
        && OthersKept(old(repo.grants), repo.grants, id) && repo.grants[id] == a.row
        && a.row == old(repo.grants)[id].(revoked := Some(revocation))
      ensures old(Accounted(repo.grants, log)) ==> Accounted(repo.grants, log)
      ensures Fair(keys.scheme) && !auditFails ==> forall disk, renewals ::
        Step(keys.scheme, System(disk, old(repo.grants), renewals), Update(Revoke(id, revocation, Some(tenantId), Some(workspaceId))))
        == System(disk, repo.grants, renewals)
    {
      hide After, Applies, Accounted;
      var committed := repo.grants;
      var changed := repo.DoRevoke(id, revocation, Some(tenantId), Some(workspaceId));
      if !changed {
        return NotChanged;
      }
      if auditFails {
        repo.grants := committed;
        return AuditFailed;
      }
      var event := Revoked(id, revocation.revokedBy, "grant_revoked: " + revocation.reason, tenantId, workspaceId);
      if Accounted(committed, log) { RevocationIsTold(committed, log, repo.grants, id, event); }
      log := log + [event];
      a := Stored(repo.grants[id]);
    }

    /** The stored grant keeps its identity and its uses; its date and its signature change together, and
        not without an event that names both dates. */
    method RenewGrant(id: string, validUntil: string, renewedBy: string, tenantId: string, workspaceId: string,
                      generated: string, auditFails: bool, ghost publicKeys: set<string>) returns (a: Answer)
      requires Fair(keys.scheme)
      modifies this`log, keys, repo
      ensures !a.Stored? ==> repo.grants == old(repo.grants) && log == old(log)
      ensures a.NotChanged? <==>
        || id !in old(repo.grants) || old(repo.grants)[id].revoked.Some?
        || old(repo.grants)[id].tenantId != tenantId || old(repo.grants)[id].workspaceId != workspaceId
      ensures a.NotChanged? ==> keys.OnDisk() == old(keys.OnDisk())
      ensures a.SigningRefused? <==>
        && !a.NotChanged?
        && Sign(keys.scheme, old(keys.OnDisk()), old(repo.grants)[id].fields.(validUntil := validUntil), generated).None?
      ensures !a.InsertRefused? && (a.AuditFailed? <==> !a.NotChanged? && !a.SigningRefused? && auditFails)
      ensures a.Stored? ==>
        && !auditFails
        && log == old(log) + [Renewed(id, renewedBy, old(repo.grants)[id].fields.validUntil, validUntil, tenantId, workspaceId)]
        && OthersKept(old(repo.grants), repo.grants, id) && repo.grants[id] == a.row
        && a.row == old(repo.grants)[id].(fields := old(repo.grants)[id].fields.(validUntil := validUntil),
                                          signature := a.row.signature)
      ensures a.Stored? && Trusted(keys.scheme, publicKeys, old(keys.OnDisk()), generated) ==>
        Verdict(keys.scheme, keys.OnDisk(), a.row.fields, a.row.signature) == Valid
      ensures old(Accounted(repo.grants, log)) ==> Accounted(repo.grants, log)
      ensures var before := System(old(keys.OnDisk()), old(repo.grants), {});
        var signed := Step(keys.scheme, before, SignRenewal(id, validUntil, generated));
        && (id !in old(repo.grants) || old(repo.grants)[id].revoked.Some? ==> signed == before)
        && (a.Stored? ==> signed.disk == keys.OnDisk() && exists r ::
              && signed.renewals == {r}
              && repo.grants == Step(keys.scheme, signed, LandRenewal(r, Some(tenantId), Some(workspaceId))).grants)
    {
      hide Baseline, Verdict, Sign, After, Applies, Accounted, CanonicalPayload, DeriveKeyId, Distinct, WellFiled, UsesOnly;
      if id !in repo.grants || !InScope(repo.grants[id], Some(tenantId), Some(workspaceId)) || repo.grants[id].revoked.Some? {
        return NotChanged;
      }
      var previous := repo.grants[id].fields.validUntil;
      var fields := repo.grants[id].fields.(validUntil := validUntil);
      ghost var before := keys.OnDisk();
      var signature := keys.SignGrant(fields, generated);
      if signature.None? {
        return SigningRefused;
      }
      if Trusted(keys.scheme, publicKeys, before, generated) {
        SignedVerifies(keys.scheme, publicKeys, before, fields, generated);
      }
      var committed := repo.grants;
      var renewed := repo.DoRenew(id, validUntil, signature.value, Some(tenantId), Some(workspaceId));
      if !renewed {
        return NotChanged;
      }
      if auditFails {
        repo.grants := committed;
        return AuditFailed;
      }
      var event := Renewed(id, renewedBy, previous, validUntil, tenantId, workspaceId);
      if Accounted(committed, log) { RenewalIsTold(committed, log, repo.grants, id, event); }
      log := log + [event];
      a := Stored(repo.grants[id]);
    }
  }

  /** The keys in use have distinct fingerprints and are filed under them. */
  ghost predicate Trusted(c: Scheme, publicKeys: set<string>, d: Disk, generated: string) {
    Fair(c) && Distinct(c, publicKeys) && WellFiled(c, d) && UsesOnly(c, publicKeys, d) && c.publicOf(generated) in publicKeys
  }
}
