# Verified model of GrantLayer's core

GrantLayer issues signed access grants, decides requests against them, records every decision in a
hash-chained audit log, and anchors exports of that log on a public chain. This project models its
core in Dafny and proves what that core promises. `dafny verify dfyconfig.toml` checks everything.

| file | subject |
|---|---|
| `ModArith`, `Edwards`, `GroupLaw`, `ScalarMul`, `PointCodec`, `Ed25519`, `SmallCurve` | the standalone Ed25519 verifier: arithmetic modulo a prime, extended coordinates, the group law, double-and-add, point decoding, the verification equation (sections 5.1.3, 5.1.4 and 5.1.7 of RFC 8032) |
| `GrantPayload` | the signed text of a grant: two printers and a parser |
| `GrantRepository`, `Keyring`, `GrantService` | guarded updates of grants; key rotation, signing and verification; creating, revoking and renewing grants with their audit events |
| `Timestamps`, `Challenges` | timestamps compared as strings; single-use challenges |
| `AuditLog`, `AuditChain`, `AuditWorkers` | appending to the audit chain, verifying it, and PostgreSQL workers in any interleaving |
| `Anchor`, `InlineVerifier` | the keyless verifier of anchored exports, and the second, inline one |
| `SlidingWindow`, `RedisExpiry`, `RateLimiter`, `RateLimiterFleet` | the deque limiter, the Redis script with its expiry, the fallback between them, and any number of processes on one server |
| `Decision`, `DecisionProtocol` | one decision, and any number of decision handlers that may fail at every write |
| `SoloHandler` | one uninterrupted handler does in that machine what the service method does |
| `DecisionHistory`, `SharedChallenge` | what stands behind a committed decision: the listing of its grant, revocations since, and how often one challenge counts |
| `Placeholders` | the two SQL placeholder converters |
| `Wrappers`, `Digits` | an option type; decimal numerals |

How outside parts appear in the model:

- Hash functions, JSON rendering and the signature library are function parameters. Nothing says that
  a hash is injective: a result that depends on it says "this holds, or here are two different texts
  with the same digest", and constructs the texts. JSON rendering of a cleaned map is assumed
  injective; of the signature library only that it accepts what it signed.
- The field and the curve are parameters. `ValidCurve` asks that p is a prime of the form 8k + 5, that
  d is not a square and that the third constant is a square root of -1; `ValidSuite` adds that the base
  point is on the curve and that the order annihilates it. `SmallCurve.SmallSuiteIsValid` shows that both
  can be met. Fermat's little theorem and the associativity of the curve law are proved.
- Clock readings, fresh identifiers, generated keys, and whether a write, a commit or a round trip
  fails, are parameters of the step or the method that meets them.

Eight places where the code and its own words disagree, and the model follows the code:

- The docstring of `verify_audit_hash_chain` promises the order "timestamp ASC, id ASC"; the query orders by
  seq. Appending, however, takes its tail by timestamp. The two agree exactly when the timestamps of
  all rows but the last are in order (`AuditChain.SerialVerifiesIff`), and concurrent workers can
  break that (`AuditWorkers.InversionForks`).
- The failure branch of the decision handler says that everything it wrote was rolled back. When a
  commit is applied and only its acknowledgement is lost, the decision, its event and its use stay,
  beside a failure record (`DecisionProtocol.LostAcknowledgement`).
- String order of timestamps is not time order within a second when exactly one of them has zero
  microseconds (`Timestamps.StringOrderIsTimeOrder`), so a challenge can be refused before it expires
  or accepted after (`Challenges.ExpiryIff`), and an honest audit chain stamped by a clock that never goes back
  can fail its own verification (`AuditChain.ClockedVerifiesIff`, `AuditChain.ClockedCanFail`).
- The inline verifier of exports is presented as a fallback for the fold, but it hashes null `reason_code` and
  `constraint_violation` keys, which the export writes on most events and leaves out of its hash. It breaks at the
  first such record of an honest export (`InlineVerifier.ExportAcceptedIff`).
- The signed text of a grant stands for the fields it lists, and does not determine them. A field that
  contains a newline followed by the next key and an equals sign reads as two fields. Each text belongs to
  exactly one grant without such a field, and to other grants besides if it belongs to one with it
  (`GrantPayload.SteadyIff`).
- docs/security_boundaries.md:34 and docs/demo_script.md:13 say that a used challenge cannot be used again. The read and
  the update of a challenge are two statements, and requests that read before the first update are all
  answered valid: for every n there is a run in which one challenge backs n succeeded executions
  (`SharedChallenge.OneChallengeBacksMany`), and never more than the reads before its first mark
  (`DecisionHistory.OneChallengeBacks`).
- docs/demo_script.md:14 says that a revocation immediately blocks all future actions. A request that listed the grant
  before goes on: the update that takes the use does not look at the flag. A row commits after its grant
  was revoked exactly when the revocation landed between the listing and that update
  (`DecisionHistory.RevokedAtCommitIff`).
- The in-process limiter is the fallback for the script, and differs from it with a limit below one: it raises
  exactly when no stamp is live, where the script denies (`SlidingWindow.RaisesIff`).

## Model

| member | source | states |
|---|---|---|
| ModArith.Fermat | scripts/verify-grant.py:76-83 | a^(p-1) = 1 modulo a prime p that does not divide a, by induction over the binomial theorem; this is why `pow(z, p - 2, p)` is an inverse |
| Edwards.InvIsInverse | scripts/verify-grant.py:83 | `pow(z, p - 2, p)` inverts every z that p does not divide |
| Edwards.DenominatorsInvertible | scripts/verify-grant.py:102-110 | completeness: for two points of the curve neither denominator of the addition law vanishes modulo p, because d is not a square |
| Edwards.AddStaysOnCurve | scripts/verify-grant.py:102-110 | the affine sum of two points of the curve is on the curve |
| Edwards.PointAddRefines | scripts/verify-grant.py:102-110 | for all representatives of curve points, equal or not, the extended-coordinate result has Z and T as required and represents the affine sum |
| Edwards.RepresentsToAffine | scripts/verify-grant.py:102-110 | every quadruple with Z not 0 and TZ = XY represents exactly the affine point (X/Z, Y/Z) |
| Edwards.PointEqualIff | scripts/verify-grant.py:123-125 | the cross-multiplied comparison holds if and only if the represented points are the same |
| GroupLaw.AddCommutes | scripts/verify-grant.py:102-110 | the addition law is commutative |
| GroupLaw.AddNeutral | scripts/verify-grant.py:99-110 | (0, 1) is neutral on the curve |
| GroupLaw.AddInverse | scripts/verify-grant.py:102-110 | (-x, y) is the inverse of (x, y) |
| GroupLaw.AddAssociative | scripts/verify-grant.py:102-110 | the addition law is associative on the whole curve, with no exceptional points and no further hypothesis |
| ScalarMul.PointMul | scripts/verify-grant.py:113-120 | the double-and-add loop ends for every scalar; its result represents the scalar-fold sum |
| ScalarMul.MulIsTimes | scripts/verify-grant.py:113-120 | the value of the loop, as a function, represents s-fold addition |
| ScalarMul.MulDistributes | scripts/verify-grant.py:113-125 | mul(s + t, P) is equal, by the code's own comparison, to mul(s, P) + mul(t, P) |
| ScalarMul.TimesMod | scripts/verify-grant.py:153-156 | multiples may be reduced modulo any number that annihilates the point |
| PointCodec.RecoverXIff | scripts/verify-grant.py:80-93 | `_recover_x(y, sign)` returns x if and only if (x, y) is a reduced point of the curve and x has the parity of the sign; so None exactly when y is too large or no such x exists |
| PointCodec.EncodeDecompress | scripts/verify-grant.py:128-137 | whatever 32 bytes decode, the point is on the curve and encodes back to the same bytes |
| PointCodec.DecompressEncode | scripts/verify-grant.py:128-137 | the encoding of every point of the curve decodes to that point |
| PointCodec.DecompressIff | scripts/verify-grant.py:128-137 | bytes decode to a point exactly when they are the encoding of that curve point |
| PointCodec.FromLEAppend | scripts/verify-grant.py:131 | bytes are read least significant first: those that follow n bytes weigh 256^n times as much |
| Ed25519.VerifyIff | scripts/verify-grant.py:140-156 | verification accepts exactly when the key and R decode to curve points A and R, S is below the order, and [S]G = R + [h]A, where h is the little-endian SHA-512 of R, key and message, in this order, modulo the order |
| Ed25519.VerifyAccepts | scripts/verify-grant.py:140-156 | from an accepted signature those points and that scalar are produced |
| Ed25519.MessageIsBound | scripts/verify-grant.py:153-156 | an accepted signature is accepted for another message under the same key if and only if the SHA-512 values of R, key and message agree modulo the order, provided the key has no neutral multiple below the order |
| Ed25519.HonestVerifies | scripts/verify-grant.py:140-156 | every signature made with S = (r + h a) mod L verifies, for every key, nonce and message |
| Ed25519.ScalarIsUnique | scripts/verify-grant.py:150-152 | when L is the exact order of G, two accepted signatures with the same R are the same signature |
| GrantPayload.PrintersAgree | backend/src/core/crypto_signing.py:230-254 | for every grant and every JSON record holding its fields, the backend printer and the standalone printer give the same text |
| GrantPayload.MissingAndNull | scripts/verify-grant.py:61-65 | the standalone printer raises exactly when one of the nine keys is missing, prints a null as "None", and leaves a null constraint out |
| GrantPayload.ParsePayload | scripts/verify-grant.py:61-65 | a parser that cuts at the next key's marker recovers all ten fields, and whether constraints was None, if and only if the grant is steady: no fixed field contains a newline followed by the next key and an equals sign |
| GrantPayload.PayloadOfParse | scripts/verify-grant.py:61-65 | whatever parses is the payload of the parsed grant, and that grant is steady |
| GrantPayload.PayloadInjective | backend/src/core/crypto_signing.py:230-254 | steady grants with equal payloads are equal, multi-line fields included |
| GrantPayload.SteadyIff | backend/src/core/crypto_signing.py:230-254 | every payload belongs to exactly one steady grant; a grant is not steady if and only if that one is another grant |
| GrantPayload.NewlinesAreAmbiguous | backend/src/core/crypto_signing.py:241-254 | wherever a field contains its next marker, the text behind it can move to the next field, or become the constraints, and the payload stays the same |
| GrantPayload.NoNewlinesAreSteady | backend/src/core/crypto_signing.py:241-254 | grants without newlines in their fixed fields are steady |
| GrantRepository.SqlAlchemyGrantRepository.DoRevoke | backend/src/core/repositories_sqlalchemy.py:200-219 | answers whether the row was live in scope; then that row alone gets the revocation, is live no more, and keeps the rest |
| GrantRepository.SqlAlchemyGrantRepository.DoRenew | backend/src/core/repositories_sqlalchemy.py:221-249 | answers whether the row was live in scope; then date and signature of that row change together, and nothing else does |
| GrantRepository.SqlAlchemyGrantRepository.DoTryConsumeUse | backend/src/core/repositories_sqlalchemy.py:264-274 | one use of that row alone is added if and only if one was left, never beyond the maximum |
| GrantRepository.UsesAreConserved | backend/src/core/repositories_sqlalchemy.py:200-274 | over any run of creations, revocations, renewals and uses the count is the initial one plus the uses granted, never above the maximum; of the signed fields only the end date ever changes |
| GrantRepository.RevocationIsFinal | backend/src/core/repositories_sqlalchemy.py:200-249 | after a revocation no renewal and no second revocation ever lands |
| Keyring.KeyStore.RegisterPublicKey | backend/src/core/crypto_signing.py:192-205 | afterwards the id has an entry: the old one if there was one and overwriting is not asked for, else the new key; no other entry changes |
| Keyring.KeyStore.EnsureKeyringBaseline | backend/src/core/crypto_signing.py:220-227 | the demo pair exists, the old one if it was complete; its fingerprint and the alias have entries, with the demo key where they were free; no other entry is added or changed |
| Keyring.KeyStore.SignGrant | backend/src/core/crypto_signing.py:262-280 | signs under the fingerprint of the signing key with a signature that this key's public half accepts, or refuses exactly when that id has no readable entry |
| Keyring.KeyStore.VerifyGrantSignature | backend/src/core/crypto_signing.py:283-311 | when each of the five verdicts is given, valid exactly when the filed key accepts the signature on the payload; the keyring is touched only after the payload hash matched |
| Keyring.BaselineIsIdempotent | backend/src/core/crypto_signing.py:220-227 | once put in place, the baseline changes nothing when put in place again, after any operations that lose no demo file; no existing entry ever changes |
| Keyring.RotationTakesEffect | backend/src/core/crypto_signing.py:262-280 | a rotation changes nothing but the key that signs next, and that key's signature, fingerprint and payload hash are what is returned |
| Keyring.FilesAndKeys | backend/src/core/crypto_signing.py:192-227 | a pair that lost a file is made anew and a whole one stays; an added key takes its id only if it is free |
| Keyring.EntriesNeverChange | backend/src/core/crypto_signing.py:192-227 | over any operations whatever no keyring entry is changed or removed |
| Keyring.OnceValidAlwaysValid | backend/src/core/crypto_signing.py:283-311 | a signature that verified once verifies after any operations whatever, rotations included |
| Keyring.FreshSignatureVerdict | backend/src/core/crypto_signing.py:262-311 | what was just signed verifies if and only if the entry filed under its id accepts it, and is otherwise 'invalid' and nothing else |
| Keyring.EveryGrantVerifies | backend/src/core/repositories_sqlalchemy.py:200-249 | over any run of rotation, registration, loss of the demo files, signing, revocation, use, and renewals signed at one time and written at another, every stored grant verifies at every moment, if no two keys in use share a fingerprint |
| GrantService.GrantService.CreateGrant | backend/src/grants/grant_service.py:94-124 | stores the row with the signature just made and its audit event, or neither; what is stored verifies if keys in use have distinct fingerprints |
| GrantService.GrantService.RevokeGrant | backend/src/grants/grant_service.py:126-144 | revokes a live grant in scope together with its event, and nothing when the event cannot be appended; the events go on telling exactly which grants exist, which are revoked, and to when they were last renewed |
| GrantService.GrantService.RenewGrant | backend/src/grants/grant_service.py:146-185 | a live grant in scope keeps all but its date and signature, which change together, verify, and come with an event naming both dates; otherwise nothing is stored, not even when only the event fails, and a grant that is not live is not even signed |
| Timestamps.StringOrderIsTimeOrder | backend/src/core/models.py:19-20 | for two rendered instants, string order agrees with time order except exactly when they share the second and exactly one has zero microseconds |
| Timestamps.RenderOrder | backend/src/core/models.py:19-20 | string order of rendered instants, in terms of their fields |
| Timestamps.RenderText | backend/src/core/models.py:19-20 | the text is YYYY-MM-DDTHH:MM:SSZ, with six digits of a fraction before the Z exactly when it is not zero |
| Challenges.ChallengeStore.CreateChallenge | backend/src/auth/challenges.py:13-45 | refuses over-long fields, a missing tenant and a taken id; otherwise stores an active, unused challenge with the rendered expiry, and no other row changes |
| Challenges.ChallengeStore.ValidateChallenge | backend/src/auth/challenges.py:111-141 | the answer in the order of the checks; valid takes an unused challenge of that subject, action and resource and marks it used; any other answer changes nothing, and no other row ever changes |
| Challenges.ValidAtMostOnce | backend/src/auth/challenges.py:103-141 | over any sequence of calls each challenge is answered valid at most once |
| Challenges.ValidMeansOwnAndFresh | backend/src/auth/challenges.py:111-141 | valid only for the challenge's own subject, action, resource and tenant, and not after its expiry, save in the second of the expiry |
| Challenges.ExpiryIff | backend/src/auth/challenges.py:127-129 | after any operations, exactly when a challenge that is still unused is answered valid to a matching call, the exceptional second included |
| Challenges.SerialRunIsRun | backend/src/auth/challenges.py:103-141 | over any run, where calls do not overlap, the separate reads, updates and inserts leave the store that the whole operations leave |
| Challenges.BothValidIff | backend/src/auth/challenges.py:103-141 | with the read and the update of overlapping calls apart: two calls on one challenge are both answered valid exactly when no update lies between their reads; otherwise the second is answered already_used |
| AuditLog.AuditTable.AppendEvent | backend/src/audit/audit_log.py:447-460 | refuses a taken id and the two empty texts, and then changes nothing; otherwise appends one row that stores the event column by column, linked to a hashed row that no other comes after by timestamp and seq, numbered one above the greatest seq, and stamps the event with it |
| AuditLog.AuditTable.VerifyAuditHashChain | backend/src/audit/audit_log.py:272-310 | walks the hashed rows, each once, ordered by seq with missing ones last and then by id; reports for each row exactly which of the two checks fails, under its id and index: the link to the row before, and the hash of its fourteen columns; valid exactly when none does |
| AuditLog.WalkIsWalk | backend/src/audit/audit_log.py:127-146 | the query and the filter give the hashed rows of the table, as often as the table has them, in that order |
| AuditLog.TailIsGreatest | backend/src/audit/audit_log.py:37-52 | the tail is a hashed row that no hashed row comes after by timestamp and seq, also where rows have no seq |
| AuditLog.FailuresIff | backend/src/audit/audit_log.py:149-183 | a failure is reported at index k if and only if row k is not linked |
| AuditChain.SqliteAppendIsSerial | backend/src/audit/audit_log.py:447-460 | an append that owns its write extends a serial table to a serial table |
| AuditChain.TailsIffTimeOrder | backend/src/audit/audit_log.py:37-52 | the tail chosen by timestamp is always the last row exactly when the timestamps of all rows but the last are in order |
| AuditChain.SerialVerifiesIff | backend/src/audit/audit_log.py:37-52 | a serial run verifies if the timestamps of all rows but the last are in order, and only then, or two colliding texts are exhibited |
| AuditChain.SerialReport | backend/src/audit/audit_log.py:272-310 | the same for the whole report: sorting and filtering change nothing, all rows are checked, no failures |
| AuditChain.ClockedVerifiesIff | backend/src/audit/audit_log.py:37-52 | under a clock that never goes back, a serial run fails the walk, and forks, exactly when before its last row an event on a whole second is followed by one in the fractions of that second, or a collision is exhibited |
| AuditChain.ClockedCanFail | backend/src/audit/audit_log.py:37-52 | for every hash function such a table: three appends in one second, the first at its start; it forks, and its report is not valid unless two texts collide |
| AuditChain.ForkFreeIff | backend/src/audit/audit_log.py:37-52 | no two rows share a predecessor exactly under that time order, with no assumption on hashes |
| AuditChain.ChainedIffRelinked | backend/src/audit/audit_log.py:55-89 | for given contents exactly one assignment of hashes is accepted: the fold over the rows |
| AuditChain.PrefixAccepted | backend/src/audit/audit_log.py:149-183 | every prefix of an accepted chain is accepted |
| AuditChain.EditIsLocated | backend/src/audit/audit_log.py:149-183 | changing one of the fourteen hashed columns of row k, as it is read, gives exactly one failure, a row hash mismatch at index k, or a collision |
| AuditChain.HashedFieldsIff | backend/src/audit/audit_log.py:55-120 | two rows hash the same text exactly when they agree in id, timestamp, subject, role, action, resource, approval, reason, matched grant, challenge id, challenge presence, the two results and the tenant, where missing, empty and default results are the same |
| AuditChain.UnhashedEditIsAccepted | backend/src/audit/audit_log.py:55-120 | an edit of nothing else, such as the workspace, the scope, the reason code or the constraint violation, is not noticed |
| AuditChain.RehashMovesReport | backend/src/audit/audit_log.py:149-183 | recomputing the hash of that row moves the report to k + 1, or a collision |
| AuditWorkers.StepKeepsInv | backend/src/audit/audit_log.py:412-444 | every step of every worker keeps the invariant of the lock and the chain |
| AuditWorkers.MutualExclusion | backend/src/audit/audit_log.py:412-444 | no two workers are past the advisory lock |
| AuditWorkers.CommittedIsPrefix | backend/src/audit/audit_log.py:412-444 | over any run the committed table only grows at its end, and not without a commit |
| AuditWorkers.InterleavingIsSerial | backend/src/audit/audit_log.py:412-444 | every interleaving of any number of workers, with several appends in a transaction and rollbacks, leaves the table of a serial run of the events given to the transactions that committed, in commit order, with strictly increasing seq |
| AuditWorkers.ReachableIffSerial | backend/src/audit/audit_log.py:412-444 | the tables that any interleaving can leave are exactly the serial tables with numbers from 1 on |
| AuditWorkers.BatchIsReachable | backend/src/audit/audit_log.py:412-444 | one transaction can append any insertable events in order under consecutive numbers and commit, or roll back and lose the numbers |
| AuditWorkers.InterleavingVerifiesIff | backend/src/audit/audit_log.py:412-444 | such a table has no fork and verifies exactly under the time order, or a collision is exhibited |
| AuditWorkers.InversionForks | backend/src/audit/audit_log.py:412-429 | a reachable state with a fork: an event stamped early and appended late |
| Anchor.RecomputeHead | scripts/verify-anchor.py:138-164 | succeeds exactly when every data line is an object that agrees with the hashes stored on it, and returns the head of the fold; raises at the first line that is not an object if no line before it is broken |
| Anchor.RecomputeIff | scripts/verify-anchor.py:138-164 | otherwise it names the first line that disagrees, and which of the two checks failed there |
| Anchor.LoadNdjson | scripts/verify-anchor.py:108-135 | loads the data lines, objects or not, and the last manifest, or names the first malformed line or the first data line after a manifest, counted without blank lines |
| Anchor.Verify | scripts/verify-anchor.py:215-255 | a file is verified if and only if some running digests attest it: every line is blank or an object and manifests come last; the digests start from 64 zeros and each is the SHA-256 of the one before and the cleaned record; stored hashes, the manifest's count and the published payload agree with them. Every other verdict is given exactly in its own case |
| Anchor.AcceptsIff | scripts/verify-anchor.py:215-255 | the same for the conditions in the order of the checks |
| Anchor.HeadBinds | scripts/verify-anchor.py:96-98 | two lists with the same head say the same, record by record, or a collision, or a text hashing to the genesis value is exhibited; no separator is needed |
| Anchor.AnchorBinding | scripts/verify-anchor.py:244-255 | with equal counts: they say the same or a collision |
| Anchor.OneAnchorOneHistory | scripts/verify-anchor.py:215-255 | two files verified against one anchor say the same under every key that is not chain metadata, or a collision is exhibited |
| Anchor.IgnoredKeys | scripts/verify-anchor.py:77-93 | a key with an underscore, and a null `constraint_violation` or `reason_code`, never change what is hashed |
| Anchor.HarmlessEditIsAccepted | scripts/verify-anchor.py:138-164 | edits that change nothing that the records say and no stored hash are accepted with the same head |
| Anchor.EditIsNamed | scripts/verify-anchor.py:155-162 | after edits that leave the stored hashes alone the error names the first line that says something else under some key that counts, or that line's two texts collide |
| Anchor.AnnotatedIsAccepted | scripts/verify-anchor.py:138-164 | a file annotated by the fold is accepted by the fold |
| Anchor.ChainHashOfLine | scripts/verify-anchor.py:278-283 | the hash of one line recomputed on its own is the running head at that line |
| Anchor.CleanIff | scripts/verify-anchor.py:77-93 | the hashed parts of two records are equal exactly when they say the same under every key that does not begin with an underscore, `constraint_violation` and `reason_code` counting as missing when null |
| InlineVerifier.VerifyInline | scripts/verify-audit.py:54-94 | the inline report: raised on malformed lines and where a value that is not an object is reached, invalid when empty, else null or the `id` of the first broken record, "unknown" where it has none |
| InlineVerifier.HeadsPartAtNull | scripts/verify-audit.py:77-82 | the two texts of a line hash alike without null forward-only keys, and differently with one, or they collide |
| InlineVerifier.SameVerdict | scripts/verify-audit.py:54-94 | on every fully annotated file the inline verifier breaks at the line that the fold names or at the first record with a null forward-only key, whichever comes first; it goes on only if they are one record that carries the inline verifier's own hash; or that record's texts collide |
| InlineVerifier.ExportAcceptedIff | scripts/verify-audit.py:54-94 | the report on an export that the fold annotated, followed by one manifest: it counts the records, and is valid exactly when no record has a null forward-only key or the first such record has a null id, or that record's texts collide; a file without any line is invalid |
| SlidingWindow.DequeRefinesScan | backend/src/core/rate_limiter.py:135-151 | over any run the deque gives every call the decision and the hint of a scan of the bucket's whole admission history |
| SlidingWindow.LuaRefinesScan | backend/src/core/rate_limiter.py:41-61 | the script does so with the window open on the left |
| SlidingWindow.AdmitsIff | backend/src/core/rate_limiter.py:135-151 | a call is admitted exactly when fewer than its limit of the earlier admissions of its bucket lie in the window ending at its time, for both limiters |
| SlidingWindow.RaisesIff | backend/src/core/rate_limiter.py:142-148 | over any run the in-process limiter raises at a call exactly when its limit is below one and no earlier admission is in the window; there the script denies and hints at the whole window |
| SlidingWindow.AtMostLimit | backend/src/core/rate_limiter.py:135-151 | no window, wherever it ends, holds more admissions than the largest limit used: closed windows for the deque, half-open ones for the script |
| SlidingWindow.DifferOnlyAtBoundary | backend/src/core/rate_limiter.py:47-49 | on one history the two decide differently exactly when stamps exactly one window old make the difference, and then the script admits |
| SlidingWindow.LuaHintFrees | backend/src/core/rate_limiter.py:53-59 | waiting the Redis hint always frees the oldest slot; the hint lies in [1, window] and is at most one second longer than needed |
| SlidingWindow.DequeHintFreesIff | backend/src/core/rate_limiter.py:146-148 | waiting the in-process hint frees it unless the oldest stamp equals the current time; the hint lies in [1, window] and no shorter wait frees the slot |
| RedisExpiry.ExpiryIsInvisible | backend/src/core/rate_limiter.py:41-61 | the script with its EXPIRE window + 1 decides every run as it does without, if between any two calls the server's clock gains at most a second on the callers' |
| RedisExpiry.MoreThanASecond | backend/src/core/rate_limiter.py:47-52 | for every gain of more than a second, and at most the window more, a run in which expiry changes a decision; a refused call does not renew the key |
| RateLimiter.RateLimiter.Check | backend/src/core/rate_limiter.py:95-151 | unlimited requests change nothing; otherwise only the bucket of the request's client and group changes, by one step of the deque |
| RateLimiter.LimitMeans | backend/src/core/rate_limiter.py:113-133 | "auth" gets the configured limit; "exercise" the override, or else 100, 1000 or none by tier; any other group the smaller of that and the configured limit, and none exactly for enterprise without an override |
| RateLimiter.ClientLimits | backend/src/core/rate_limiter.py:95-151 | whatever else is requested, one client gets through at most `auth_limit` in "auth" and at most `api_limit` in other groups in any closed window, unless it is enterprise without an override, and in "exercise" at most its override or 100 |
| RateLimiter.RedisServer.Eval | backend/src/core/rate_limiter.py:41-61 | one step of the script on its key, and on no other |
| RateLimiter.RedisRateLimiter.Check | backend/src/core/rate_limiter.py:299-357 | the script decides while connected; on a fault, with or without its effect, the connection is dropped and the fallback decides |
| RateLimiter.RedisRateLimiter.LiveRedisHealth | backend/src/core/rate_limiter.py:233-271 | after a probe the limiter is connected exactly when the configured server answered |
| RateLimiter.ProbeDecides | backend/src/core/rate_limiter.py:233-357 | in a run, the requests after a probe are decided by the server alone or by the fallback alone, as the probe was answered |
| RateLimiter.AtMostTwice | backend/src/core/rate_limiter.py:299-357 | under any faults, disconnections and reconnections at most twice the limit is let through per key in any half-open window |
| RateLimiter.TwiceIsReached | backend/src/core/rate_limiter.py:311-318 | for every limit n a run that lets through 2n requests at one instant |
| RateLimiter.AtMostOncePerLimiter | backend/src/core/rate_limiter.py:299-357 | in a window in which every check of a key was decided by the same limiter the limit itself is the bound, whatever happened outside it |
| RateLimiter.AtMostOnceWithoutFaults | backend/src/core/rate_limiter.py:299-357 | without faults the limit itself is the bound |
| RateLimiterFleet.AtMostPerProcess | backend/src/core/rate_limiter.py:299-357 | W processes on one server, each with its own fallback and faults, let through at most W + 1 times the limit per key in any half-open window |
| RateLimiterFleet.PerProcessIsReached | backend/src/core/rate_limiter.py:311-318 | for every limit n and every W at least 1 a run that lets through (W + 1) n requests at one instant |
| RateLimiter.RedisKeyInjective | backend/src/core/rate_limiter.py:348 | the joined key separates clients, even with colons in the client part, if groups and tiers contain none |
| Decision.Judge | backend/src/demo/demo_action.py:58-164 | a request is approvable if and only if no required challenge is missing, the policy approved, the named challenge is valid and the matched grant's signature verifies; otherwise reason and code are those of the first of these that fails, the challenge before the signature, each with its own text |
| Decision.ApprovableMeans | backend/src/demo/demo_action.py:121-164 | under the policy's contract an approvable request has a first grant with the matched id in the list, and its signature verifies unless that id is empty, which skips the check |
| Decision.DecisionService.WriteDecision | backend/src/demo/demo_action.py:166-228 | the transaction writes use, execution, event and link together, column by column as the result and the uses left say, or, at whatever write it fails, nothing |
| Decision.DecisionService.HandleDemoAction | backend/src/demo/demo_action.py:255-280 | what is in the database and what is answered, for a failure at every point: a failure record under its own id with no event, or an exception when it cannot be written |
| DecisionProtocol.CommitIsOneDecision | backend/src/demo/demo_action.py:171-228 | in every interleaving a commit has exactly the effect that the decision, as it was judged, has when run alone on the database of that moment |
| DecisionProtocol.StepKeepsInv | backend/src/demo/demo_action.py:166-280 | every step of every handler and administrator keeps the ledger invariant |
| DecisionProtocol.LedgerLaw | backend/src/demo/demo_action.py:166-280 | in every reachable state decision rows and audit events correspond one to one and agree, failure records have no event, and each use count is its initial value plus its succeeded executions and never above the maximum, also for grants created during the run |
| DecisionProtocol.AnswersAreWitnessed | backend/src/demo/demo_action.py:230-280 | every answer given is witnessed by its rows, then and for ever |
| DecisionProtocol.CommittedStays | backend/src/demo/demo_action.py:166-280 | no committed row is ever changed or lost |
| DecisionProtocol.InterleavingIsSerial | backend/src/demo/demo_action.py:166-280 | every interleaving leaves the database that its decisions, failure records and administrative updates leave when run alone in commit order |
| DecisionProtocol.LostAcknowledgement | backend/src/demo/demo_action.py:225-280 | when a commit is applied but its answer is lost, the decision stays and a failure record joins it |
| DecisionProtocol.FailedAttemptIff | backend/src/demo/demo_action.py:225-280 | over any run, a failed attempt has a decision row, then or later, exactly when what failed was the acknowledgement of its commit |
| DecisionProtocol.SucceededWasApprovable | backend/src/demo/demo_action.py:58-228 | behind every succeeded execution stands a step that judged that attempt, after its own listing, policy answer and challenge read, on an approvable request, and the row names that request's matched grant |
| SoloHandler.AloneIsTheMethod | backend/src/demo/demo_action.py:58-280 | for every request and fault, from every state in which the row to be used is not held, the machine has a run of one handler that leaves the database, the answer and the challenge that the service methods do, and lets the handler serve again |
| SoloHandler.AdministratorIsTheRepository | backend/src/core/repositories_sqlalchemy.py:200-262 | an administrator who finds the row free does what the repository does |
| DecisionHistory.RevokedAtCommitIff | backend/src/demo/demo_action.py:121-228 | every committed execution that took a use is traced to its listing, judgement, use and commit; the grant was live at the listing, and is revoked at the commit exactly when a revocation landed between the listing and the use, since none lands while the row is locked |
| DecisionHistory.UseIgnoresRevocation | backend/src/core/repositories_sqlalchemy.py:264-274 | a use that could be taken can be taken in the same way after its grant was revoked |
| DecisionHistory.OneChallengeBacks | backend/src/auth/challenges.py:103-141 | in any run the executions that succeeded on one challenge are at most as many as its valid reads, all of which precede its first mark; at most one when each two valid reads have a mark between them |
| DecisionHistory.BackedIsUsed | backend/src/auth/challenges.py:111-141 | whatever is approved on a challenge, the challenge was marked before that, and is used from then on |
| SharedChallenge.OneChallengeBacksMany | backend/src/auth/challenges.py:111-141 | for every n a run in which exactly n executions succeed on one challenge |
| Placeholders.QToNamed | backend/src/core/db.py:110-129 | cut at its `?`, the text gets `:p1`, `:p2`, ... in their place and the dictionary maps exactly p1, p2, ... to the parameters in order; or the numbers differ and it is rejected |
| Placeholders.ExecuteScan | backend/src/core/db.py:238-261 | the scanner ends on every text, and computes the recursive scan |
| Placeholders.ScanWithNames | backend/src/core/db.py:238-261 | for any dictionary, names of letters, digits and underscores that start with no digit: each supplied one becomes `?` and passes its value, in order; those not supplied, and all other text, stay |
| Placeholders.ScanNamed | backend/src/core/db.py:238-261 | on clean text the scanner inverts the numbering from any number on |
| Placeholders.ScannedBackIsClean | backend/src/core/db.py:238-261 | the scanner gives the text back only if it is clean |
| Placeholders.RoundTrip | backend/src/core/db.py:110-129 | the round trip returns the same text and parameters exactly when no placeholder is followed by an identifier character and no `:pN` of the text names a supplied parameter |

## Left out

- Real SHA-256, SHA-512, HMAC, PEM parsing and the `cryptography` library: function parameters with the
  hypotheses named above. The HMAC check of the manifest is not modelled; the line hashes it signs are.
- Primality of 2^255 - 19, that d is not a square, that [L]G is neutral, and the value of the base point
  are hypotheses (`ValidCurve`, `ValidSuite`), not computed from the constants.
- JSON texts: a canonical form is an injective rendering of a map. Records hold nulls, strings and
  integers; booleans, floats and nested values are not modelled.
- UTF-8 encoding: texts are sequences of characters.
- File access, chain access, command lines and exit codes of the scripts; the report texts.
- The checks around `ed25519_verify` in the standalone grant verifier's command line.
- The policy engine: `Decision.PolicyContract` asks only that an approval names a grant of the list, and
  `Decision.ApprovesEligible` that this grant was not revoked and had a use left. Validity dates are not checked.
- Grants are never deleted; the rows that a handler lists are those of the table at that moment.
- The grant request id and the free-form fields of execution rows and events; they are carried and not read.
- Real databases, pools, sessions and the asynchronous twins of the repositories: a committed table, a
  pending transaction, row locks on consumed grants and the advisory lock held until commit.
- SQLite appends on a caller's connection, where the in-process lock is released before the caller
  commits; the model has the append that owns its write.
- Rows with no seq sort differently in the tail query of the two database backends; serial tables have none.
- The demo operation that tampers with a grant; outside it GrantLayer never changes a maximum, lowers a use count or
  rewrites a signed field other than the end date.
- Private key files, their permissions and passphrases; a signing key that cannot be loaded raises before
  anything is written.
- Overwriting registration is modelled as a method and excluded from runs: no caller in the service uses it.
- RateLimiter.RedisServer.Eval: does not expire its keys; `RedisExpiry` shows that expiry changes no decision.
- Redis eviction and loss of data, and the limiter's reset; the server keeps its sorted sets.
- Clocks that go back, and the second clock reading that the fallback makes when no time is passed in:
  both sides judge one instant. Times are real numbers, not floats.
- Threads inside one limiter: each check is one step under its lock.
- HTTP routers, middleware, SDK clients, webhooks, telemetry, on-chain submission, workspace resolution,
  log redaction and configuration checks: they would add only easy members.
