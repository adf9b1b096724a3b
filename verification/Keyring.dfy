/** The signing keyring: key rotation, registration that never overwrites, signing and verification. */
module Keyring {
  import opened Wrappers
  import opened GrantPayload
  import opened GrantRepository

  /** The signature library and SHA-256; keys are raw bytes, signatures hexadecimal text, and a text
      that is not hexadecimal does not verify. */
  datatype Scheme = Scheme(publicOf: string -> string,
                           sign: (string, string) -> string,
                           verify: (string, string, string) -> bool,
                           sha256: string -> string)

  /** What is expected of the library: its signatures verify, and texts are not empty. */
  ghost predicate Fair(c: Scheme) {
    && (forall key, text :: c.verify(c.publicOf(key), c.sign(key, text), text) && c.sign(key, text) != "")
    && (forall text :: |c.sha256(text)| == 64)
  }

  const LEGACY_ALIAS := "demo-ed25519-v1"

  /** ed25519-<first 16 hexadecimal digits of the SHA-256 of the raw key> */
  function DeriveKeyId(c: Scheme, pub: string): string
    requires |c.sha256(pub)| >= 16
  {
    "ed25519-" + c.sha256(pub)[..16]
  }

  /** Key files by id, None for one that cannot be read; the demo key pair on disk; and the private key
      that the configuration names, if any. */
  datatype Disk = Disk(entries: map<string, Option<string>>, demoPrivate: Option<string>, demoPublic: Option<string>,
                       configured: Option<string>)

  // ---- keyring operations ----

  function Register(d: Disk, id: string, pub: string): Disk {
    if id in d.entries then d else d.(entries := d.entries[id := Some(pub)])
  }

  function LoadById(d: Disk, id: string): Option<string> {
    if id in d.entries then d.entries[id] else None
  }

  /** A new pair replaces both files when either is missing. */
  function EnsureDemoKeypair(c: Scheme, d: Disk, generated: string): (r: Disk)
    ensures r.demoPrivate.Some? && r.demoPublic.Some?
  {
    if d.demoPrivate.Some? && d.demoPublic.Some? then d
    else d.(demoPrivate := Some(generated), demoPublic := Some(c.publicOf(generated)))
  }

  function Baseline(c: Scheme, d: Disk, generated: string): Disk
    requires Fair(c)
  {
    var paired := EnsureDemoKeypair(c, d, generated);
    var pub := paired.demoPublic.value;
    Register(Register(paired, DeriveKeyId(c, pub), pub), LEGACY_ALIAS, pub)
  }

  /** The key that signs: the configured one, or the demo key. */
  function SigningKey(c: Scheme, d: Disk, generated: string): string {
    if d.configured.Some? then d.configured.value else EnsureDemoKeypair(c, d, generated).demoPrivate.value
  }

  /** Some signature, or None for SigningKeyNotRegisteredError. */
  function Sign(c: Scheme, d: Disk, g: GrantFields, generated: string): Option<Signature>
    requires Fair(c)
  {
    var key := SigningKey(c, d, generated);
    var id := DeriveKeyId(c, c.publicOf(key));
    if LoadById(Baseline(c, d, generated), id).None? then None
    else
      var payload := CanonicalPayload(g);
      Some(Signature(Some(c.sign(key, payload)), Some(id), Some(c.sha256(payload))))
  }

  datatype SignatureResult = Missing | HashMismatch | UnknownKey | Invalid | Valid

  predicate Truthy(s: Option<string>) {
    s.Some? && s.value != ""
  }

  /** The verdict on a grant once the baseline is in place. */
  function Verdict(c: Scheme, d: Disk, g: GrantFields, s: Signature): SignatureResult {
    if !Truthy(s.text) || !Truthy(s.keyId) || !Truthy(s.payloadHash) then Missing
    else
      var payload := CanonicalPayload(g);
      if s.payloadHash.value != c.sha256(payload) then HashMismatch
      else
        match LoadById(d, s.keyId.value)
        case None => UnknownKey
        case Some(pub) => if c.verify(pub, s.text.value, payload) then Valid else Invalid
  }

  class KeyStore {
    const scheme: Scheme
    var entries: map<string, Option<string>>
    var demoPrivate: Option<string>
    var demoPublic: Option<string>
    var configured: Option<string>

    constructor (c: Scheme, configured: Option<string>)
      ensures scheme == c && OnDisk() == Disk(map[], None, None, configured)
    {
      scheme := c;
      entries, demoPrivate, demoPublic := map[], None, None;
      this.configured := configured;
    }

    ghost function OnDisk(): Disk
      reads this
    {
      Disk(entries, demoPrivate, demoPublic, configured)
    }

    method RegisterPublicKey(id: string, pub: string, overwrite: bool)
      modifies this
      ensures OnDisk() == if overwrite then old(OnDisk()).(entries := old(entries)[id := Some(pub)])
                          else Register(old(OnDisk()), id, pub)
      ensures id in entries && (id !in old(entries) || overwrite ==> entries[id] == Some(pub))
      ensures forall k :: k in old(entries) && (k != id || !overwrite) ==> k in entries && entries[k] == old(entries)[k]
      ensures entries.Keys == old(entries).Keys + {id}
    {
      if id in entries && !overwrite {
        return;
      }
      entries := entries[id := Some(pub)];
    }

    method LoadPublicKeyById(id: string) returns (pub: Option<string>)
      ensures pub == LoadById(OnDisk(), id)
    {
      if id !in entries {
        return None;
      }
      pub := entries[id];
    }

    method EnsureKeyringBaseline(generated: string)
      requires Fair(scheme)
      modifies this
      ensures OnDisk() == Baseline(scheme, old(OnDisk()), generated)
      ensures demoPrivate.Some? && demoPublic.Some? && configured == old(configured)
      ensures if old(demoPrivate).Some? && old(demoPublic).Some?
              then demoPrivate == old(demoPrivate) && demoPublic == old(demoPublic)
              else demoPrivate == Some(generated) && demoPublic == Some(scheme.publicOf(generated))
      ensures entries.Keys == old(entries).Keys + {"ed25519-" + scheme.sha256(demoPublic.value)[..16], "demo-ed25519-v1"}
      ensures forall id :: id in entries ==> entries[id] == if id in old(entries) then old(entries)[id] else demoPublic
    {
      if demoPrivate.None? || demoPublic.None? {
        demoPrivate, demoPublic := Some(generated), Some(scheme.publicOf(generated));
      }
      var pub := demoPublic.value;
      RegisterPublicKey("ed25519-" + scheme.sha256(pub)[..16], pub, false);
      RegisterPublicKey(LEGACY_ALIAS, pub, false);
    }

    method SignGrant(g: GrantFields, generated: string) returns (r: Option<Signature>)
      requires Fair(scheme)
      modifies this
      ensures r == Sign(scheme, old(OnDisk()), g, generated)
      ensures OnDisk() == Baseline(scheme, old(OnDisk()), generated)
      ensures demoPrivate.Some?
      ensures var key := if configured.Some? then configured.value else demoPrivate.value;
        var pub := scheme.publicOf(key);
        var id := "ed25519-" + scheme.sha256(pub)[..16];
        && (r.None? <==> id !in entries || entries[id].None?)
        && (r.Some? ==>
              && r.value.keyId == Some(id) && r.value.payloadHash == Some(scheme.sha256(CanonicalPayload(g)))
              && r.value.text.Some? && r.value.text.value != "" && scheme.verify(pub, r.value.text.value, CanonicalPayload(g)))
    {
      EnsureKeyringBaseline(generated);
      var key := if configured.Some? then configured.value else demoPrivate.value;
      var id := "ed25519-" + scheme.sha256(scheme.publicOf(key))[..16];
      var registered := LoadPublicKeyById(id);
      if registered.None? {
        return None;
      }
      var payload := CanonicalPayload(g);
      r := Some(Signature(Some(scheme.sign(key, payload)), Some(id), Some(scheme.sha256(payload))));
    }

    /** The baseline is only put in place once the payload hash has been checked. */
    method VerifyGrantSignature(g: GrantFields, s: Signature, generated: string) returns (r: SignatureResult)
      requires Fair(scheme)
      modifies this
      ensures r == Verdict(scheme, Baseline(scheme, old(OnDisk()), generated), g, s)
      ensures OnDisk() == if r in {Missing, HashMismatch} then old(OnDisk()) else Baseline(scheme, old(OnDisk()), generated)
      ensures r == Missing <==>
        || s.text == None || s.text == Some("") || s.keyId == None || s.keyId == Some("")
        || s.payloadHash == None || s.payloadHash == Some("")
      ensures r == HashMismatch <==> r != Missing && s.payloadHash != Some(scheme.sha256(CanonicalPayload(g)))
      ensures r == UnknownKey <==> r !in {Missing, HashMismatch} && (s.keyId.value !in entries || entries[s.keyId.value].None?)
      ensures r == Valid <==>
        && r !in {Missing, HashMismatch, UnknownKey}
        && scheme.verify(entries[s.keyId.value].value, s.text.value, CanonicalPayload(g))
    {
      if !Truthy(s.text) || !Truthy(s.keyId) || !Truthy(s.payloadHash) {
        return Missing;
      }
      var payload := CanonicalPayload(g);
      if s.payloadHash.value != scheme.sha256(payload) {
        return HashMismatch;
      }
      EnsureKeyringBaseline(generated);
      var pub := LoadPublicKeyById(s.keyId.value);
      if pub.None? {
        return UnknownKey;
      }
      if scheme.verify(pub.value, s.text.value, payload) {
        return Valid;
      }
      r := Invalid;
    }
  }

  // ---- entries never change ----

  /** Every entry of d is still there, unchanged, in e. */
  ghost predicate Extends(e: Disk, d: Disk) {
    forall id :: id in d.entries ==> id in e.entries && e.entries[id] == d.entries[id]
  }

  /** Putting the baseline in place twice is putting it in place once, and changes no entry. */
  lemma BaselineAgain(c: Scheme, d: Disk, generated: string, again: string)
    requires Fair(c)
    ensures var b := Baseline(c, d, generated);
      && Baseline(c, b, again) == b && Extends(b, d)
      && DeriveKeyId(c, b.demoPublic.value) in b.entries && LEGACY_ALIAS in b.entries
  {
  }

  // ---- rotation, signing, renewal and revocation, interleaved ----

  /** A renewal that has been signed but not yet written. */
  datatype Renewal = Renewal(id: string, validUntil: string, signature: Signature)

  datatype System = System(disk: Disk, grants: Grants, renewals: set<Renewal>)

  /** Create signs and inserts; SignRenewal reads and signs; LandRenewal is the guarded update, at any
      later time; the demo files may be lost. */
  datatype Operation =
    | Rotate(configured: Option<string>)
    | AddKey(id: string, pub: string)
    | LoseDemo(privateFile: bool, publicFile: bool)
    | Check(generated: string)
    | CreateGrant(row: GrantRow, generated: string)
    | SignRenewal(id: string, validUntil: string, generated: string)
    | LandRenewal(renewal: Renewal, tenantId: Option<string>, workspaceId: Option<string>)
    | Update(op: GrantRepository.Operation)

  /** Keys are registered under their own fingerprint or under the alias. */
  predicate Proper(c: Scheme, s: System, op: Operation) {
    match op
    case AddKey(id, pub) => id == LEGACY_ALIAS || (|c.sha256(pub)| == 64 && id == DeriveKeyId(c, pub))
    case LandRenewal(renewal, _, _) => renewal in s.renewals
    case Update(o) => o.Revoke? || o.TryConsumeUse?
    case _ => true
  }

  function Step(c: Scheme, s: System, op: Operation): System
    requires Fair(c)
  {
    match op
    case Rotate(k) => s.(disk := s.disk.(configured := k))
    case AddKey(id, pub) => s.(disk := Register(s.disk, id, pub))
    case LoseDemo(a, b) =>
      s.(disk := s.disk.(demoPrivate := if a then None else s.disk.demoPrivate, demoPublic := if b then None else s.disk.demoPublic))
    case Check(generated) => s.(disk := Baseline(c, s.disk, generated))
    case CreateGrant(row, generated) =>
      var signature := Sign(c, s.disk, row.fields, generated);
      var next := s.(disk := Baseline(c, s.disk, generated));
      if signature.None? then next
      else next.(grants := After(s.grants, Create(row.(signature := signature.value))))
    case SignRenewal(id, validUntil, generated) =>
      if id !in s.grants || s.grants[id].revoked.Some? then s
      else
        var signature := Sign(c, s.disk, s.grants[id].fields.(validUntil := validUntil), generated);
        var next := s.(disk := Baseline(c, s.disk, generated));
        if signature.None? then next
        else next.(renewals := s.renewals + {Renewal(id, validUntil, signature.value)})
    case LandRenewal(r, t, w) => s.(grants := After(s.grants, Renew(r.id, r.validUntil, r.signature, t, w)))
    case Update(o) => s.(grants := After(s.grants, o))
  }

  function RunAll(c: Scheme, s: System, ops: seq<Operation>): System
    requires Fair(c)
  {
    if ops == [] then s else Step(c, RunAll(c, s, ops[..|ops| - 1]), ops[|ops| - 1])
  }

  /** Over any operations whatever, no entry of the keyring is changed or removed. */
  lemma {:induction false} EntriesNeverChange(c: Scheme, s: System, ops: seq<Operation>)
    requires Fair(c)
    ensures Extends(RunAll(c, s, ops).disk, s.disk)
  {
    if ops != [] {
      EntriesNeverChange(c, s, ops[..|ops| - 1]);
      StepExtends(c, RunAll(c, s, ops[..|ops| - 1]), ops[|ops| - 1]);
    }
  }

  lemma StepExtends(c: Scheme, s: System, op: Operation)
    requires Fair(c)
    ensures Extends(Step(c, s, op).disk, s.disk)
  {
    hide Sign;
    hide DeriveKeyId;
    hide After;
  }

  /** A rotation changes nothing but the key that signs next: the configured one, or else the demo key. */
  lemma RotationTakesEffect(c: Scheme, s: System, k: Option<string>, g: GrantFields, generated: string)
    requires Fair(c)
    ensures var t := Step(c, s, Rotate(k));
      && t == s.(disk := t.disk) && t.disk == s.disk.(configured := t.disk.configured)
      && var signed := Sign(c, t.disk, g, generated);
      && (signed.Some? && (k.Some? || (s.disk.demoPrivate.Some? && s.disk.demoPublic.Some?)) ==>
            var key := if k.Some? then k.value else s.disk.demoPrivate.value;
            signed.value == Signature(Some(c.sign(key, CanonicalPayload(g))),
                                      Some("ed25519-" + c.sha256(c.publicOf(key))[..16]),
                                      Some(c.sha256(CanonicalPayload(g)))))
  {
    hide CanonicalPayload;
  }

  /** A pair that has lost a file is made anew by the next check; a whole one stays; and a key is added under an
      id only if the id is free. */
  lemma FilesAndKeys(c: Scheme, s: System, a: bool, b: bool, generated: string, id: string, pub: string)
    requires Fair(c)
    ensures var lost := Step(c, s, LoseDemo(a, b));
      var t := Step(c, lost, Check(generated));
      && lost.grants == t.grants == s.grants && lost.renewals == t.renewals == s.renewals && lost.disk.entries == s.disk.entries
      && (if a || b || s.disk.demoPrivate.None? || s.disk.demoPublic.None?
          then t.disk.demoPrivate == Some(generated) && t.disk.demoPublic == Some(c.publicOf(generated))
          else t.disk.demoPrivate == s.disk.demoPrivate && t.disk.demoPublic == s.disk.demoPublic)
    ensures var t := Step(c, s, AddKey(id, pub));
      && t == s.(disk := t.disk) && t.disk == s.disk.(entries := t.disk.entries)
      && t.disk.entries == if id in s.disk.entries then s.disk.entries else s.disk.entries[id := Some(pub)]
  {
  }

  /** A signature that was valid once is valid after any operations whatever. */
  lemma {:induction false} OnceValidAlwaysValid(c: Scheme, s: System, ops: seq<Operation>, g: GrantFields, sig: Signature)
    requires Fair(c) && Verdict(c, s.disk, g, sig) == Valid
    ensures Verdict(c, RunAll(c, s, ops).disk, g, sig) == Valid
  {
    EntriesNeverChange(c, s, ops);
  }

  /** The baseline is in place: the demo pair exists and is filed. */
  predicate InPlace(c: Scheme, d: Disk)
    requires Fair(c)
  {
    d.demoPrivate.Some? && d.demoPublic.Some? && DeriveKeyId(c, d.demoPublic.value) in d.entries && LEGACY_ALIAS in d.entries
  }

  lemma InPlaceIsFixed(c: Scheme, d: Disk, again: string)
    requires Fair(c) && InPlace(c, d)
    ensures Baseline(c, d, again) == d
  {
  }

  lemma {:induction false} StaysInPlace(c: Scheme, s: System, ops: seq<Operation>)
    requires Fair(c) && InPlace(c, s.disk) && forall i :: 0 <= i < |ops| ==> !ops[i].LoseDemo?
    ensures InPlace(c, RunAll(c, s, ops).disk)
  {
    if ops != [] {
      StaysInPlace(c, s, ops[..|ops| - 1]);
      hide DeriveKeyId, Sign, After;
    }
  }

  /** Once put in place the baseline needs no repair: after any operations that lose no demo file, putting
      it in place again changes nothing, and the demo key is still resolvable under both of its ids with
      the entries it had. */
  lemma BaselineIsIdempotent(c: Scheme, s: System, generated: string, ops: seq<Operation>, again: string)
    requires Fair(c) && forall i :: 0 <= i < |ops| ==> !ops[i].LoseDemo?
    ensures var b := Step(c, s, Check(generated));
      var later := RunAll(c, b, ops);
      Baseline(c, later.disk, again) == later.disk && Extends(later.disk, b.disk) && Extends(b.disk, s.disk)
  {
    BaselineAgain(c, s.disk, generated, again);
    var b := Step(c, s, Check(generated));
    StaysInPlace(c, b, ops);
    EntriesNeverChange(c, b, ops);
    InPlaceIsFixed(c, RunAll(c, b, ops).disk, again);
  }

  // ---- what signing promises ----

  /** Two different keys with the same fingerprint. */
  predicate SharedFingerprint(c: Scheme, p: string, q: string) {
    p != q && |c.sha256(p)| == 64 && |c.sha256(q)| == 64 && DeriveKeyId(c, p) == DeriveKeyId(c, q)
  }

  /** A fresh signature verifies at once exactly when the entry under its id accepts it; never for
      another reason is it refused. */
  lemma FreshSignatureVerdict(c: Scheme, d: Disk, g: GrantFields, generated: string)
    requires Fair(c) && Sign(c, d, g, generated).Some?
    ensures var sig := Sign(c, d, g, generated).value;
      var after := Baseline(c, d, generated);
      var entry := LoadById(after, sig.keyId.value);
      && entry.Some?
      && (Verdict(c, after, g, sig) == Valid <==> c.verify(entry.value, sig.text.value, CanonicalPayload(g)))
      && (Verdict(c, after, g, sig) != Valid ==> Verdict(c, after, g, sig) == Invalid)
      && (entry.value == c.publicOf(SigningKey(c, d, generated)) ==> Verdict(c, after, g, sig) == Valid)
  {
    assert |DeriveKeyId(c, c.publicOf(SigningKey(c, d, generated)))| == 24;
    assert |c.sha256(CanonicalPayload(g))| == 64;
    hide Baseline;
    hide CanonicalPayload;
  }

  // ---- every grant verifies, at every moment of every run ----

  /** Every readable entry lies under its own fingerprint or under the alias. */
  ghost predicate WellFiled(c: Scheme, d: Disk) {
    forall id :: id in d.entries && d.entries[id].Some? && id != LEGACY_ALIAS ==>
      |c.sha256(d.entries[id].value)| == 64 && id == DeriveKeyId(c, d.entries[id].value)
  }

  /** The public keys in use are among `keys`, no two of which share a fingerprint. */
  ghost predicate Distinct(c: Scheme, keys: set<string>) {
    forall p, q :: p in keys && q in keys ==> !SharedFingerprint(c, p, q)
  }

  ghost predicate UsesOnly(c: Scheme, keys: set<string>, d: Disk) {
    && (forall id :: id in d.entries && d.entries[id].Some? ==> d.entries[id].value in keys)
    && (d.demoPublic.Some? ==> d.demoPublic.value in keys)
    && (d.demoPrivate.Some? ==> c.publicOf(d.demoPrivate.value) in keys)
    && (d.configured.Some? ==> c.publicOf(d.configured.value) in keys)
  }

  ghost predicate BringsOnly(c: Scheme, keys: set<string>, op: Operation) {
    match op
    case Rotate(k) => k.Some? ==> c.publicOf(k.value) in keys
    case AddKey(_, pub) => pub in keys
    case Check(generated) => c.publicOf(generated) in keys
    case CreateGrant(_, generated) => c.publicOf(generated) in keys
    case SignRenewal(_, _, generated) => c.publicOf(generated) in keys
    case _ => true
  }

  /** Every stored grant verifies, and every pending renewal verifies on the row it is meant for. */
  ghost predicate AllVerify(c: Scheme, s: System) {
    && (forall id :: id in s.grants ==> Verdict(c, s.disk, s.grants[id].fields, s.grants[id].signature) == Valid)
    && (forall r :: r in s.renewals ==>
          r.id in s.grants
          && Verdict(c, s.disk, s.grants[r.id].fields.(validUntil := r.validUntil), r.signature) == Valid)
  }

  ghost predicate Sound(c: Scheme, keys: set<string>, s: System) {
    WellFiled(c, s.disk) && UsesOnly(c, keys, s.disk) && AllVerify(c, s)
  }

  lemma BaselineKeeps(c: Scheme, keys: set<string>, d: Disk, generated: string)
    requires Fair(c) && WellFiled(c, d) && UsesOnly(c, keys, d) && c.publicOf(generated) in keys
    ensures var b := Baseline(c, d, generated); WellFiled(c, b) && UsesOnly(c, keys, b) && Extends(b, d)
    ensures c.publicOf(SigningKey(c, d, generated)) in keys
  {
    hide DeriveKeyId;
  }

  lemma FingerprintIsNotAlias(c: Scheme, pub: string)
    requires |c.sha256(pub)| >= 16
    ensures DeriveKeyId(c, pub) != LEGACY_ALIAS
  {
    assert DeriveKeyId(c, pub)[0] != LEGACY_ALIAS[0];
  }

  /** With distinct fingerprints, whatever sign_grant returns verifies. */
  lemma SignedVerifies(c: Scheme, keys: set<string>, d: Disk, g: GrantFields, generated: string)
    requires Fair(c) && Distinct(c, keys) && WellFiled(c, d) && UsesOnly(c, keys, d) && c.publicOf(generated) in keys
    requires Sign(c, d, g, generated).Some?
    ensures Verdict(c, Baseline(c, d, generated), g, Sign(c, d, g, generated).value) == Valid
  {
    BaselineKeeps(c, keys, d, generated);
    FreshSignatureVerdict(c, d, g, generated);
    var own := c.publicOf(SigningKey(c, d, generated));
    FingerprintIsNotAlias(c, own);
    var entry := LoadById(Baseline(c, d, generated), DeriveKeyId(c, own)).value;
    hide Baseline;
    hide SigningKey;
    hide Verdict;
    hide CanonicalPayload;
    assert !SharedFingerprint(c, own, entry);
  }

  lemma VerdictKeeps(c: Scheme, d: Disk, e: Disk, g: GrantFields, sig: Signature)
    requires Extends(e, d) && Verdict(c, d, g, sig) == Valid
    ensures Verdict(c, e, g, sig) == Valid
  {
    hide CanonicalPayload;
  }

  lemma AllKeepVerifying(c: Scheme, s: System, d: Disk)
    requires AllVerify(c, s) && Extends(d, s.disk)
    ensures AllVerify(c, s.(disk := d))
  {
    hide Verdict;
    forall id | id in s.grants ensures Verdict(c, d, s.grants[id].fields, s.grants[id].signature) == Valid {
      VerdictKeeps(c, s.disk, d, s.grants[id].fields, s.grants[id].signature);
    }
    forall r | r in s.renewals
      ensures Verdict(c, d, s.grants[r.id].fields.(validUntil := r.validUntil), r.signature) == Valid
    {
      VerdictKeeps(c, s.disk, d, s.grants[r.id].fields.(validUntil := r.validUntil), r.signature);
    }
  }

  lemma DiskStepKeeps(c: Scheme, keys: set<string>, s: System, op: Operation)
    requires Fair(c) && Sound(c, keys, s) && Proper(c, s, op) && BringsOnly(c, keys, op)
    ensures var d := Step(c, s, op).disk; WellFiled(c, d) && UsesOnly(c, keys, d) && Extends(d, s.disk)
  {
    hide AllVerify;
    hide Sign;
    hide After;
    if op.Check? || op.CreateGrant? || op.SignRenewal? {
      BaselineKeeps(c, keys, s.disk, op.generated);
      hide Baseline;
    }
  }

  lemma CreateKeeps(c: Scheme, s: System, row: GrantRow)
    requires AllVerify(c, s) && Verdict(c, s.disk, row.fields, row.signature) == Valid
    ensures AllVerify(c, s.(grants := After(s.grants, Create(row))))
  {
    hide Verdict;
  }

  lemma PendingKeeps(c: Scheme, s: System, r: Renewal)
    requires AllVerify(c, s) && r.id in s.grants
    requires Verdict(c, s.disk, s.grants[r.id].fields.(validUntil := r.validUntil), r.signature) == Valid
    ensures AllVerify(c, s.(renewals := s.renewals + {r}))
  {
    hide Verdict;
  }

  /** A renewal written late still fits: nothing that is signed has changed except the date. */
  lemma LandingKeeps(c: Scheme, s: System, r: Renewal, t: Option<string>, w: Option<string>)
    requires AllVerify(c, s) && r in s.renewals
    ensures AllVerify(c, s.(grants := After(s.grants, Renew(r.id, r.validUntil, r.signature, t, w))))
  {
    hide Verdict;
  }

  lemma UpdateKeeps(c: Scheme, s: System, o: GrantRepository.Operation)
    requires AllVerify(c, s) && (o.Revoke? || o.TryConsumeUse?)
    ensures AllVerify(c, s.(grants := After(s.grants, o)))
  {
    hide Verdict;
  }

  /** Every operation keeps every grant and every pending renewal verifiable. */
  lemma StepKeepsSound(c: Scheme, keys: set<string>, s: System, op: Operation)
    requires Fair(c) && Distinct(c, keys) && Sound(c, keys, s) && Proper(c, s, op) && BringsOnly(c, keys, op)
    ensures Sound(c, keys, Step(c, s, op))
  {
    DiskStepKeeps(c, keys, s, op);
    var m := s.(disk := Step(c, s, op).disk);
    AllKeepVerifying(c, s, m.disk);
    match op {
      case CreateGrant(row, generated) =>
        if Sign(c, s.disk, row.fields, generated).Some? {
          SignedVerifies(c, keys, s.disk, row.fields, generated);
          CreateKeeps(c, m, row.(signature := Sign(c, s.disk, row.fields, generated).value));
        }
      case SignRenewal(id, validUntil, generated) =>
        if id in s.grants {
          var fields := s.grants[id].fields.(validUntil := validUntil);
          if Sign(c, s.disk, fields, generated).Some? {
            SignedVerifies(c, keys, s.disk, fields, generated);
            hide Sign, Verdict, Baseline, AllVerify;
            if s.grants[id].revoked.None? {
              PendingKeeps(c, m, Renewal(id, validUntil, Sign(c, s.disk, fields, generated).value));
            }
          }
        }
      case LandRenewal(r, t, w) => LandingKeeps(c, m, r, t, w);
      case Update(o) => UpdateKeeps(c, m, o);
      case _ =>
    }
    hide Sign, Verdict, Baseline, Register, AllVerify, After;
  }

  ghost predicate ProperRun(c: Scheme, keys: set<string>, s: System, ops: seq<Operation>)
    requires Fair(c)
  {
    forall i :: 0 <= i < |ops| ==> Proper(c, RunAll(c, s, ops[..i]), ops[i]) && BringsOnly(c, keys, ops[i])
  }

  /** Over any run of key rotation, non-overwriting registration, loss of the demo files, signing,
      revocation, use, and renewals that are signed at one time and written at another, every grant in
      the table verifies at every moment, provided keys are filed under their own fingerprint (or the
      alias) and no two keys in use share a fingerprint. */
  lemma {:induction false} EveryGrantVerifies(c: Scheme, keys: set<string>, s: System, ops: seq<Operation>, id: string)
    requires Fair(c) && Distinct(c, keys) && Sound(c, keys, s) && ProperRun(c, keys, s, ops)
    ensures Sound(c, keys, RunAll(c, s, ops))
    ensures id in RunAll(c, s, ops).grants ==>
      var row := RunAll(c, s, ops).grants[id]; Verdict(c, RunAll(c, s, ops).disk, row.fields, row.signature) == Valid
  {
    if ops != [] {
      var front := ops[..|ops| - 1];
      assert forall i :: 0 <= i < |front| ==> front[..i] == ops[..i] && front[i] == ops[i];
      EveryGrantVerifies(c, keys, s, front, id);
      StepKeepsSound(c, keys, RunAll(c, s, front), ops[|front|]);
    }
  }
}
