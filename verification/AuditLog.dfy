/** The audit hash chain: appending rows, and the separate walk that verifies them. */
module AuditLog {
  import opened Wrappers
  import opened Timestamps

  /** An audit event as the application holds it. */
  datatype Event = Event(
    id: string, timestamp: string, subjectId: string, role: string, action: string, resource: string,
    approved: bool, reason: string, matchedGrantId: Option<string>, challengeId: Option<string>,
    challengePresent: bool, challengeResult: string, grantSignatureResult: string,
    tenantId: Option<string>, workspaceId: string, scope: Option<string>,
    reasonCode: Option<string>, constraintViolation: Option<string>)

  /** A stored row, with the column types of the table: booleans as integers, nullable texts. */
  datatype Row = Row(
    id: string, timestamp: string, subjectId: string, role: string, action: string, resource: string,
    approved: int, reason: string, matchedGrantId: Option<string>, challengeId: Option<string>,
    challengePresent: Option<int>, challengeResult: Option<string>, grantSignatureResult: Option<string>,
    tenantId: Option<string>, workspaceId: string, scope: Option<string>,
    reasonCode: Option<string>, constraintViolation: Option<string>,
    rowHash: Option<string>, prevHash: Option<string>, seqNo: Option<int>)

  /** The fields that enter the hash. */
  datatype Payload = Payload(
    id: string, timestamp: string, subjectId: string, role: string, action: string, resource: string,
    approved: bool, reason: string, matchedGrantId: Option<string>, challengeId: Option<string>,
    challengePresent: bool, challengeResult: string, grantSignatureResult: string,
    prevHash: Option<string>, tenantId: Option<string>)

  /** json.dumps with sorted keys, and SHA-256 in hexadecimal. */
  datatype Hasher = Hasher(render: Payload -> string, digest: string -> string)

  /** The JSON text determines the payload. */
  ghost predicate Rendering(h: Hasher) {
    forall p, q :: h.render(p) == h.render(q) ==> p == q
  }

  /** Two different texts with the same digest. */
  predicate Collision(h: Hasher, s: string, t: string) {
    s != t && h.digest(s) == h.digest(t)
  }

  function HashPayload(e: Event, prev: Option<string>): Payload {
    Payload(e.id, e.timestamp, e.subjectId, e.role, e.action, e.resource, e.approved, e.reason,
            e.matchedGrantId, e.challengeId, e.challengePresent, e.challengeResult,
            e.grantSignatureResult, prev, e.tenantId)
  }

  function ComputeRowHash(h: Hasher, e: Event, prev: Option<string>): string {
    h.digest(h.render(HashPayload(e, prev)))
  }

  /** `value or default` for a nullable text. */
  function OrDefault(v: Option<string>, default: string): string {
    if v.None? || v.value == "" then default else v.value
  }

  function RowToEvent(r: Row): Event {
    Event(r.id, r.timestamp, r.subjectId, r.role, r.action, r.resource, r.approved != 0, r.reason,
          r.matchedGrantId, r.challengeId, r.challengePresent.Some? && r.challengePresent.value != 0,
          OrDefault(r.challengeResult, "legacy_mode"), OrDefault(r.grantSignatureResult, "not_checked"),
          r.tenantId, r.workspaceId, r.scope, r.reasonCode, r.constraintViolation)
  }

  function BuildInsertParams(e: Event, rowHash: string, prev: Option<string>, seqNo: int): Row {
    Row(e.id, e.timestamp, e.subjectId, e.role, e.action, e.resource, if e.approved then 1 else 0, e.reason,
        e.matchedGrantId, e.challengeId, Some(if e.challengePresent then 1 else 0), Some(e.challengeResult),
        Some(e.grantSignatureResult), e.tenantId, e.workspaceId, e.scope, e.reasonCode, e.constraintViolation,
        Some(rowHash), prev, Some(seqNo))
  }

  // ---- appending ----

  /** a comes before b in ORDER BY timestamp, seq (ascending; a missing seq first). */
  predicate RowBefore(a: Row, b: Row) {
    || StrLess(a.timestamp, b.timestamp)
    || (a.timestamp == b.timestamp && b.seqNo.Some? && (a.seqNo.None? || a.seqNo.value < b.seqNo.value))
  }

  /** The row that ORDER BY timestamp DESC, seq DESC LIMIT 1 selects among the hashed rows. */
  function TailIndex(rows: seq<Row>): (t: Option<nat>)
    ensures t.Some? ==> t.value < |rows| && rows[t.value].rowHash.Some?
    ensures t.None? ==> forall i :: 0 <= i < |rows| ==> rows[i].rowHash.None?
  {
    if rows == [] then None
    else
      var n := |rows| - 1;
      var t := TailIndex(rows[..n]);
      if rows[n].rowHash.None? then t
      else if t.None? || !RowBefore(rows[n], rows[t.value]) then Some(n)
      else t
  }

  function LatestRowHash(rows: seq<Row>): Option<string> {
    match TailIndex(rows)
    case None => None
    case Some(i) => rows[i].rowHash
  }

  function NewRow(h: Hasher, rows: seq<Row>, e: Event, seqNo: int): Row {
    var prev := LatestRowHash(rows);
    BuildInsertParams(e, ComputeRowHash(h, e, prev), prev, seqNo)
  }

  /** What the table accepts: a fresh primary key, and texts that are not empty (the insert guard). */
  predicate Insertable(rows: seq<Row>, e: Event) {
    && (forall i :: 0 <= i < |rows| ==> rows[i].id != e.id)
    && e.challengeResult != "" && e.grantSignatureResult != ""
  }

  function MaxSeq(rows: seq<Row>): Option<int> {
    if rows == [] then None
    else
      var m, s := MaxSeq(rows[..|rows| - 1]), rows[|rows| - 1].seqNo;
      if s.None? then m else if m.None? || m.value < s.value then s else m
  }

  /** (max_seq or 0) + 1 */
  function NextSeq(rows: seq<Row>): int {
    match MaxSeq(rows)
    case None => 1
    case Some(m) => m + 1
  }

  // ---- what is appended ----

  /** The columns of an event's row, apart from its place in the chain. */
  predicate Stores(r: Row, e: Event) {
    && (r.id, r.timestamp, r.subjectId, r.role, r.action, r.resource) == (e.id, e.timestamp, e.subjectId, e.role, e.action, e.resource)
    && r.approved == (if e.approved then 1 else 0) && r.challengePresent == Some(if e.challengePresent then 1 else 0)
    && (r.reason, r.matchedGrantId, r.challengeId) == (e.reason, e.matchedGrantId, e.challengeId)
    && r.challengeResult == Some(e.challengeResult) && r.grantSignatureResult == Some(e.grantSignatureResult)
    && (r.tenantId, r.workspaceId, r.scope) == (e.tenantId, e.workspaceId, e.scope)
    && (r.reasonCode, r.constraintViolation) == (e.reasonCode, e.constraintViolation)
  }

  /** Row a does not come after row b by timestamp, and by seq within one timestamp; a missing seq is least. */
  predicate NotAfter(a: Row, b: Row) {
    && !StrLess(b.timestamp, a.timestamp)
    && (a.timestamp == b.timestamp && a.seqNo.Some? ==> b.seqNo.Some? && a.seqNo.value <= b.seqNo.value)
  }

  /** The hash of a hashed row that no other hashed row comes after, or null if no row is hashed. */
  ghost predicate IsTailHash(rows: seq<Row>, prev: Option<string>) {
    if forall i :: 0 <= i < |rows| ==> rows[i].rowHash.None? then prev.None?
    else exists t :: 0 <= t < |rows| && IsTail(rows, t) && prev == rows[t].rowHash
  }

  predicate IsTail(rows: seq<Row>, t: nat)
    requires t < |rows|
  {
    rows[t].rowHash.Some? && forall i :: 0 <= i < |rows| && rows[i].rowHash.Some? ==> NotAfter(rows[i], rows[t])
  }

  lemma NotAfterTransitive(a: Row, b: Row, c: Row)
    requires NotAfter(a, b) && NotAfter(b, c)
    ensures NotAfter(a, c)
  {
    NotLessTransitive(a.timestamp, b.timestamp, c.timestamp);
    StrLessTotal(a.timestamp, b.timestamp);
    StrLessTotal(b.timestamp, c.timestamp);
    hide StrLess;
  }

  lemma BeforeIsNotAfter(a: Row, b: Row)
    ensures RowBefore(a, b) ==> NotAfter(a, b)
    ensures !RowBefore(a, b) ==> NotAfter(b, a)
  {
    StrLessTotal(a.timestamp, b.timestamp);
    StrLessIrreflexive(a.timestamp);
    hide StrLess;
  }

  /** The tail is greatest in the order of timestamps and seqs. */
  lemma {:induction false} TailIsGreatest(rows: seq<Row>)
    ensures TailIndex(rows).Some? ==> IsTail(rows, TailIndex(rows).value)
    ensures IsTailHash(rows, LatestRowHash(rows))
  {
    hide NotAfter, RowBefore;
    if rows != [] {
      var n := |rows| - 1;
      TailIsGreatest(rows[..n]);
      BeforeIsNotAfter(rows[n], rows[n]);
      var t := TailIndex(rows[..n]);
      if rows[n].rowHash.Some? && t.Some? {
        BeforeIsNotAfter(rows[n], rows[t.value]);
        forall i | 0 <= i < n && rows[i].rowHash.Some? && NotAfter(rows[t.value], rows[n]) ensures NotAfter(rows[i], rows[n]) {
          assert rows[..n][i] == rows[i];
          NotAfterTransitive(rows[i], rows[t.value], rows[n]);
        }
      }
      assert forall i :: 0 <= i < n ==> rows[..n][i] == rows[i];
    }
  }

  /** One more than the greatest seq, or 1 where there is none. */
  predicate IsNextSeq(rows: seq<Row>, s: Option<int>) {
    && s.Some?
    && (forall i :: 0 <= i < |rows| && rows[i].seqNo.Some? ==> rows[i].seqNo.value < s.value)
    && if forall i :: 0 <= i < |rows| ==> rows[i].seqNo.None? then s.value == 1
       else exists i :: 0 <= i < |rows| && rows[i].seqNo == Some(s.value - 1)
  }

  lemma {:induction false} MaxSeqIsGreatest(rows: seq<Row>)
    ensures MaxSeq(rows).None? <==> forall i :: 0 <= i < |rows| ==> rows[i].seqNo.None?
    ensures MaxSeq(rows).Some? ==>
      && (forall i :: 0 <= i < |rows| && rows[i].seqNo.Some? ==> rows[i].seqNo.value <= MaxSeq(rows).value)
      && exists i :: 0 <= i < |rows| && rows[i].seqNo == MaxSeq(rows)
  {
    if rows != [] {
      var n := |rows| - 1;
      MaxSeqIsGreatest(rows[..n]);
      assert forall i :: 0 <= i < n ==> rows[..n][i] == rows[i];
    }
  }

  lemma NextSeqIsNext(rows: seq<Row>)
    ensures IsNextSeq(rows, Some(NextSeq(rows)))
  {
    MaxSeqIsGreatest(rows);
    hide MaxSeq;
  }

  // ---- verification ----

  datatype Reason = PrevHashMismatch | RowHashMismatch

  datatype Failure = Failure(eventId: string, index: nat, reason: Reason)

  /** r comes before s in ORDER BY (seq IS NULL), seq, id. */
  predicate SeqBefore(r: Row, s: Row) {
    if r.seqNo.Some? && s.seqNo.Some? then
      r.seqNo.value < s.seqNo.value || (r.seqNo.value == s.seqNo.value && StrLess(r.id, s.id))
    else if r.seqNo.None? && s.seqNo.None? then StrLess(r.id, s.id)
    else r.seqNo.Some?
  }

  function InsertSorted(rows: seq<Row>, r: Row): seq<Row> {
    if rows == [] || !SeqBefore(r, rows[|rows| - 1]) then rows + [r]
    else InsertSorted(rows[..|rows| - 1], r) + [rows[|rows| - 1]]
  }

  /** SELECT * FROM audit_events ORDER BY (seq IS NULL), seq ASC, id ASC */
  function FetchOrdered(rows: seq<Row>): seq<Row> {
    if rows == [] then [] else InsertSorted(FetchOrdered(rows[..|rows| - 1]), rows[|rows| - 1])
  }

  function FilterChainRows(rows: seq<Row>): seq<Row> {
    if rows == [] then []
    else
      var front := FilterChainRows(rows[..|rows| - 1]);
      if rows[|rows| - 1].rowHash.Some? then front + [rows[|rows| - 1]] else front
  }

  /** Row a does not come after row b by (seq IS NULL), seq, id. */
  predicate InQueryOrder(a: Row, b: Row) {
    if a.seqNo == b.seqNo then !StrLess(b.id, a.id)
    else if a.seqNo.None? || b.seqNo.None? then b.seqNo.None?
    else a.seqNo.value < b.seqNo.value
  }

  predicate Ordered(rows: seq<Row>) {
    forall i, j :: 0 <= i < j < |rows| ==> InQueryOrder(rows[i], rows[j])
  }

  /** The hashed rows of the table, each as often as the table has it, in query order. */
  ghost predicate IsWalk(table: seq<Row>, walk: seq<Row>) {
    && Ordered(walk)
    && forall r :: multiset(walk)[r] == if r.rowHash.Some? then multiset(table)[r] else 0
  }

  lemma QueryOrderTransitive(a: Row, b: Row, c: Row)
    requires InQueryOrder(a, b) && InQueryOrder(b, c)
    ensures InQueryOrder(a, c)
  {
    if a.seqNo == b.seqNo == c.seqNo { NotLessTransitive(a.id, b.id, c.id); }
    hide StrLess;
  }

  lemma SeqBeforeIsOrder(a: Row, b: Row)
    ensures SeqBefore(a, b) ==> InQueryOrder(a, b)
    ensures !SeqBefore(a, b) ==> InQueryOrder(b, a)
  {
    StrLessTotal(a.id, b.id);
    hide StrLess;
  }

  lemma OrderedSnoc(rows: seq<Row>, r: Row)
    requires Ordered(rows) && (rows != [] ==> InQueryOrder(rows[|rows| - 1], r))
    ensures Ordered(rows + [r])
  {
    hide InQueryOrder;
    forall i | 0 <= i < |rows| ensures InQueryOrder(rows[i], r) {
      if i < |rows| - 1 { QueryOrderTransitive(rows[i], rows[|rows| - 1], r); }
    }
  }

  lemma FrontAndLast(rows: seq<Row>)
    requires rows != []
    ensures multiset(rows) == multiset(rows[..|rows| - 1]) + multiset{rows[|rows| - 1]}
    ensures Ordered(rows) ==> Ordered(rows[..|rows| - 1])
  {
    hide InQueryOrder;
    assert rows == rows[..|rows| - 1] + [rows[|rows| - 1]];
  }

  /** The new row goes behind the last row that it does not come before. */
  lemma {:induction false} InsertKeepsOrder(rows: seq<Row>, r: Row)
    requires Ordered(rows)
    ensures Ordered(InsertSorted(rows, r)) && multiset(InsertSorted(rows, r)) == multiset(rows) + multiset{r}
    ensures var s := InsertSorted(rows, r); s != [] && s[|s| - 1] in {r} + (if rows == [] then {} else {rows[|rows| - 1]})
  {
    hide InQueryOrder, SeqBefore;
    if rows == [] {
    } else {
      var n := |rows| - 1;
      SeqBeforeIsOrder(r, rows[n]);
      FrontAndLast(rows);
      hide Ordered;
      if SeqBefore(r, rows[n]) {
        InsertKeepsOrder(rows[..n], r);
        LastBefore(rows, r);
        OrderedSnoc(InsertSorted(rows[..n], r), rows[n]);
      } else {
        OrderedSnoc(rows, r);
      }
    }
  }

  lemma LastBefore(rows: seq<Row>, r: Row)
    requires Ordered(rows) && rows != [] && InQueryOrder(r, rows[|rows| - 1])
    ensures var n := |rows| - 1;
      forall x :: x in {r} + (if rows[..n] == [] then {} else {rows[..n][n - 1]}) ==> InQueryOrder(x, rows[n])
  {
    hide InQueryOrder;
  }

  lemma {:induction false} FetchIsSorted(table: seq<Row>)
    ensures Ordered(FetchOrdered(table)) && multiset(FetchOrdered(table)) == multiset(table)
  {
    hide InsertSorted, Ordered;
    if table != [] {
      FetchIsSorted(table[..|table| - 1]);
      FrontAndLast(table);
      InsertKeepsOrder(FetchOrdered(table[..|table| - 1]), table[|table| - 1]);
    } else {
      assert FetchOrdered(table) == [];
      NoRows();
    }
  }

  lemma NoRows()
    ensures Ordered([])
  {
  }

  lemma {:induction false} FilterIsHashed(rows: seq<Row>)
    requires Ordered(rows)
    ensures Ordered(FilterChainRows(rows))
    ensures forall r :: multiset(FilterChainRows(rows))[r] == if r.rowHash.Some? then multiset(rows)[r] else 0
    ensures forall r :: r in FilterChainRows(rows) ==> r in rows
  {
    hide InQueryOrder;
    if rows != [] {
      var n := |rows| - 1;
      FrontAndLast(rows);
      FilterIsHashed(rows[..n]);
      var front := FilterChainRows(rows[..n]);
      assert front != [] ==> front[|front| - 1] in rows[..n];
      if rows[n].rowHash.Some? {
        OrderedSnoc(front, rows[n]);
      }
    }
  }

  /** The rows that are walked. */
  lemma WalkIsWalk(table: seq<Row>)
    ensures IsWalk(table, FilterChainRows(FetchOrdered(table)))
  {
    FetchIsSorted(table);
    FilterIsHashed(FetchOrdered(table));
    hide Ordered, FetchOrdered, FilterChainRows;
  }

  function VerifySingleEvent(h: Hasher, e: Event, rowHash: Option<string>, prevHash: Option<string>,
                             expected: Option<string>, index: nat): seq<Failure>
  {
    (if prevHash != expected then [Failure(e.id, index, PrevHashMismatch)] else [])
    + (if rowHash != Some(ComputeRowHash(h, e, expected)) then [Failure(e.id, index, RowHashMismatch)] else [])
  }

  /** The previous row's hash, or None for the first row. */
  function ExpectedPrev(rows: seq<Row>, i: nat): Option<string>
    requires i < |rows|
  {
    if i > 0 then rows[i - 1].rowHash else None
  }

  function FailuresAt(h: Hasher, rows: seq<Row>, i: nat): seq<Failure>
    requires i < |rows|
  {
    VerifySingleEvent(h, RowToEvent(rows[i]), rows[i].rowHash, rows[i].prevHash, ExpectedPrev(rows, i), i)
  }

  /** The failures of the first n rows. */
  function Failures(h: Hasher, rows: seq<Row>, n: nat): seq<Failure>
    requires n <= |rows|
  {
    if n == 0 then [] else Failures(h, rows, n - 1) + FailuresAt(h, rows, n - 1)
  }

  datatype Report = Report(valid: bool, checked: nat, failures: seq<Failure>)

  function VerifyReport(h: Hasher, table: seq<Row>): Report {
    var rows := FilterChainRows(FetchOrdered(table));
    var f := Failures(h, rows, |rows|);
    Report(|f| == 0, |rows|, f)
  }

  /** An event object; appending stamps it with its place in the chain. */
  class AuditEvent {
    const content: Event
    var rowHash: Option<string>
    var prevHash: Option<string>
    var seqNo: Option<int>

    constructor (e: Event)
      ensures content == e && rowHash == None && prevHash == None && seqNo == None
    {
      content, rowHash, prevHash, seqNo := e, None, None, None;
    }
  }

  /** The audit_events table behind the SQLite path, where each append owns its write. */
  class AuditTable {
    const h: Hasher
    var rows: seq<Row>

    constructor (h: Hasher)
      ensures rows == [] && this.h == h
    {
      this.h, rows := h, [];
    }

    /** False where the insert raises; the table and the event are then unchanged. */
    method AppendEvent(event: AuditEvent) returns (ok: bool)
      modifies this, event
      ensures ok <==>
        && (forall i :: 0 <= i < |old(rows)| ==> old(rows)[i].id != event.content.id)
        && event.content.challengeResult != "" && event.content.grantSignatureResult != ""
      ensures ok ==> rows == old(rows) + [NewRow(h, old(rows), event.content, NextSeq(old(rows)))]
      ensures ok ==> Stores(rows[|old(rows)|], event.content) && RowToEvent(rows[|old(rows)|]) == event.content
      ensures ok ==> IsTailHash(old(rows), rows[|old(rows)|].prevHash) && IsNextSeq(old(rows), rows[|old(rows)|].seqNo)
      ensures ok ==> rows[|old(rows)|].rowHash == Some(ComputeRowHash(h, event.content, rows[|old(rows)|].prevHash))
      ensures ok ==> event.rowHash == rows[|old(rows)|].rowHash && event.prevHash == rows[|old(rows)|].prevHash
                     && event.seqNo == rows[|old(rows)|].seqNo
      ensures !ok ==> rows == old(rows) && unchanged(event)
    {
      var prevHash := LatestRowHash(rows);
      var rowHash := ComputeRowHash(h, event.content, prevHash);
      var nextSeq := NextSeq(rows);
      ok := Insertable(rows, event.content);
      TailIsGreatest(rows);
      NextSeqIsNext(rows);
      hide TailIndex, MaxSeq, ComputeRowHash, RowBefore;
      if ok {
        rows := rows + [BuildInsertParams(event.content, rowHash, prevHash, nextSeq)];
        event.rowHash, event.prevHash, event.seqNo := Some(rowHash), prevHash, Some(nextSeq);
      }
    }

    method VerifyAuditHashChain() returns (report: Report)
      ensures report == VerifyReport(h, rows)
      ensures var walk := FilterChainRows(FetchOrdered(rows));
        && IsWalk(rows, walk) && report.checked == |walk|
        && (report.valid <==> Chained(h, walk)) && (report.valid <==> report.failures == [])
        && (forall k {:trigger walk[k]} :: 0 <= k < |walk| ==>
              && (Failure(walk[k].id, k, PrevHashMismatch) in report.failures <==> !PrevOk(walk, k))
              && (Failure(walk[k].id, k, RowHashMismatch) in report.failures <==> !HashOk(h, walk, k)))
        && (forall f :: f in report.failures ==> f.index < |walk| && f.eventId == walk[f.index].id)
    {
      var chainRows := FilterChainRows(FetchOrdered(rows));
      var failures: seq<Failure> := [];
      for i := 0 to |chainRows|
        invariant failures == Failures(h, chainRows, i)
      {
        var event := RowToEvent(chainRows[i]);
        var expected := if i > 0 then chainRows[i - 1].rowHash else None;
        failures := failures + VerifySingleEvent(h, event, chainRows[i].rowHash, chainRows[i].prevHash, expected, i);
      }
      hide Failures, FetchOrdered, FilterChainRows, VerifySingleEvent, Chained, LinkedAt;
      FailuresIff(h, chainRows, |chainRows|);
      FailuresAre(h, chainRows, |chainRows|);
      WalkIsWalk(rows);
      report := Report(|failures| == 0, |chainRows|, failures);
    }
  }

  // ---- what the walk accepts ----

  /** What is hashed for a row: the values of its columns, a missing flag as false and a missing or empty text
      as its default, with the hash of the row before it. */
  function PayloadOf(r: Row, prev: Option<string>): Payload {
    Payload(r.id, r.timestamp, r.subjectId, r.role, r.action, r.resource, r.approved != 0, r.reason,
            r.matchedGrantId, r.challengeId, r.challengePresent != None && r.challengePresent != Some(0),
            if r.challengeResult == None || r.challengeResult == Some("") then "legacy_mode" else r.challengeResult.value,
            if r.grantSignatureResult == None || r.grantSignatureResult == Some("") then "not_checked" else r.grantSignatureResult.value,
            prev, r.tenantId)
  }

  lemma EventPayload(r: Row, prev: Option<string>)
    ensures HashPayload(RowToEvent(r), prev) == PayloadOf(r, prev)
  {
  }

  predicate PrevOk(rows: seq<Row>, i: nat)
    requires i < |rows|
  {
    rows[i].prevHash == ExpectedPrev(rows, i)
  }

  predicate HashOk(h: Hasher, rows: seq<Row>, i: nat)
    requires i < |rows|
  {
    rows[i].rowHash == Some(h.digest(h.render(PayloadOf(rows[i], ExpectedPrev(rows, i)))))
  }

  /** Row i links to row i - 1 and its hash is the hash of its own columns. */
  predicate LinkedAt(h: Hasher, rows: seq<Row>, i: nat)
    requires i < |rows|
  {
    PrevOk(rows, i) && HashOk(h, rows, i)
  }

  predicate Chained(h: Hasher, rows: seq<Row>) {
    forall i :: 0 <= i < |rows| ==> LinkedAt(h, rows, i)
  }

  lemma FailuresAtIff(h: Hasher, rows: seq<Row>, i: nat)
    requires i < |rows|
    ensures FailuresAt(h, rows, i) == [] <==> LinkedAt(h, rows, i)
    ensures forall f :: f in FailuresAt(h, rows, i) ==> f.index == i && f.eventId == rows[i].id
    ensures Failure(rows[i].id, i, PrevHashMismatch) in FailuresAt(h, rows, i) <==> !PrevOk(rows, i)
    ensures Failure(rows[i].id, i, RowHashMismatch) in FailuresAt(h, rows, i) <==> !HashOk(h, rows, i)
  {
    EventPayload(rows[i], ExpectedPrev(rows, i));
    hide PayloadOf, HashPayload;
  }

  /** Each failure carries the identifier of its row, and each row's reasons are those that apply. */
  lemma {:induction false} FailuresAre(h: Hasher, rows: seq<Row>, n: nat)
    requires n <= |rows|
    ensures forall f :: f in Failures(h, rows, n) ==> f.index < n && f.eventId == rows[f.index].id
    ensures forall k {:trigger rows[k]} :: 0 <= k < n ==>
      && (Failure(rows[k].id, k, PrevHashMismatch) in Failures(h, rows, n) <==> !PrevOk(rows, k))
      && (Failure(rows[k].id, k, RowHashMismatch) in Failures(h, rows, n) <==> !HashOk(h, rows, k))
  {
    hide PrevOk, HashOk, FailuresAt;
    if n > 0 {
      FailuresAre(h, rows, n - 1);
      FailuresAtIff(h, rows, n - 1);
    }
  }

  /** Some failure names index k. */
  predicate Reports(fs: seq<Failure>, k: nat) {
    exists f: Failure :: f in fs && f.index == k
  }

  lemma ReportedIn(front: seq<Failure>, last: seq<Failure>, n: nat, k: nat)
    requires (forall f :: f in front ==> f.index < n) && (forall f :: f in last ==> f.index == n) && k <= n
    ensures Reports(front + last, k) <==> if k < n then Reports(front, k) else last != []
  {
    if k < n && Reports(front, k) {
      var f: Failure :| f in front && f.index == k;
      assert f in front + last;
    }
    if k == n && last != [] {
      assert last[0] in front + last;
    }
  }

  lemma {:induction false} FailuresBelow(h: Hasher, rows: seq<Row>, n: nat)
    requires n <= |rows|
    ensures forall f :: f in Failures(h, rows, n) ==> f.index < n
  {
    if n > 0 {
      FailuresBelow(h, rows, n - 1);
      FailuresAtIff(h, rows, n - 1);
      hide FailuresAt;
    }
  }

  lemma FailuresStep(h: Hasher, rows: seq<Row>, n: nat)
    requires 0 < n <= |rows|
    ensures Failures(h, rows, n) == Failures(h, rows, n - 1) + FailuresAt(h, rows, n - 1)
  {
    hide FailuresAt;
  }

  lemma {:induction false} ReportedIff(h: Hasher, rows: seq<Row>, n: nat, k: nat)
    requires k < n <= |rows|
    ensures Reports(Failures(h, rows, n), k) <==> !LinkedAt(h, rows, k)
  {
    hide Failures, FailuresAt, LinkedAt, Reports;
    FailuresStep(h, rows, n);
    FailuresBelow(h, rows, n - 1);
    FailuresAtIff(h, rows, n - 1);
    if k < n - 1 { ReportedIff(h, rows, n - 1, k); }
    ReportedIn(Failures(h, rows, n - 1), FailuresAt(h, rows, n - 1), n - 1, k);
  }

  /** A failure is reported at index k exactly when row k is not linked. */
  lemma FailuresIff(h: Hasher, rows: seq<Row>, n: nat)
    requires n <= |rows|
    ensures Failures(h, rows, n) == [] <==> forall i :: 0 <= i < n ==> LinkedAt(h, rows, i)
    ensures forall k: nat :: k < n ==> (Reports(Failures(h, rows, n), k) <==> !LinkedAt(h, rows, k))
    ensures forall f :: f in Failures(h, rows, n) ==> f.index < n
  {
    hide Failures, LinkedAt;
    FailuresBelow(h, rows, n);
    forall k: nat | k < n ensures Reports(Failures(h, rows, n), k) <==> !LinkedAt(h, rows, k) {
      ReportedIff(h, rows, n, k);
    }
    var fs := Failures(h, rows, n);
    if fs != [] {
      assert fs[0] in fs && Reports(fs, fs[0].index);
    }
  }
}
