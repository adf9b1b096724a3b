/** Properties of the audit chain: when serial appends verify, what the walk binds, and where it
    reports a change. */
module AuditChain {
  import opened Wrappers
  import opened Timestamps
  import opened AuditLog

  // ---- serial tables ----

  /** Row i is what appending its event to the rows before it writes. */
  predicate SerialAt(h: Hasher, rows: seq<Row>, i: nat)
    requires i < |rows|
  {
    var e := RowToEvent(rows[i]);
    && Insertable(rows[..i], e)
    && rows[i].seqNo.Some?
    && rows[i] == NewRow(h, rows[..i], e, rows[i].seqNo.value)
  }

  predicate Increasing(rows: seq<Row>) {
    && (forall i :: 0 <= i < |rows| ==> rows[i].seqNo.Some?)
    && (forall i, j :: 0 <= i < j < |rows| ==> rows[i].seqNo.value < rows[j].seqNo.value)
  }

  /** The table is the result of a serial run of appends from an empty table. */
  predicate Serial(h: Hasher, rows: seq<Row>) {
    (forall i :: 0 <= i < |rows| ==> SerialAt(h, rows, i)) && Increasing(rows)
  }

  /** The serial run itself. */
  function SerialRun(h: Hasher, es: seq<Event>, seqs: seq<int>): (rows: seq<Row>)
    requires |es| == |seqs|
    ensures |rows| == |es|
  {
    if es == [] then []
    else
      var n := |es| - 1;
      var front := SerialRun(h, es[..n], seqs[..n]);
      front + [NewRow(h, front, es[n], seqs[n])]
  }

  function EventsOf(rows: seq<Row>): (es: seq<Event>)
    ensures |es| == |rows| && forall i :: 0 <= i < |rows| ==> es[i] == RowToEvent(rows[i])
  {
    seq(|rows|, i requires 0 <= i < |rows| => RowToEvent(rows[i]))
  }

  function SeqsOf(rows: seq<Row>): (s: seq<int>)
    requires Increasing(rows)
    ensures |s| == |rows| && forall i :: 0 <= i < |rows| ==> s[i] == rows[i].seqNo.value
  {
    seq(|rows|, i requires 0 <= i < |rows| => rows[i].seqNo.value)
  }

  lemma SerialPrefix(h: Hasher, rows: seq<Row>, n: nat)
    requires Serial(h, rows) && n <= |rows|
    ensures Serial(h, rows[..n])
  {
    forall i | 0 <= i < n ensures SerialAt(h, rows[..n], i) {
      assert rows[..n][..i] == rows[..i];
      assert SerialAt(h, rows, i);
    }
  }

  lemma SerialLast(h: Hasher, rows: seq<Row>, n: nat)
    requires Serial(h, rows) && n < |rows|
    ensures rows[n] == NewRow(h, rows[..n], EventsOf(rows)[n], SeqsOf(rows)[n])
  {
    assert SerialAt(h, rows, n);
  }

  lemma PrefixColumns(rows: seq<Row>, n: nat)
    requires n == |rows| - 1 && Increasing(rows)
    ensures Increasing(rows[..n])
    ensures EventsOf(rows)[..n] == EventsOf(rows[..n]) && SeqsOf(rows)[..n] == SeqsOf(rows[..n])
  {
    hide RowToEvent;
  }

  lemma SerialIsIncreasing(h: Hasher, rows: seq<Row>)
    requires Serial(h, rows)
    ensures Increasing(rows)
  {
  }

  lemma SerialRunLast(h: Hasher, rows: seq<Row>, es: seq<Event>, seqs: seq<int>, n: nat)
    requires |rows| == |es| == |seqs| == n + 1
    requires rows[..n] == SerialRun(h, es[..n], seqs[..n]) && rows[n] == NewRow(h, rows[..n], es[n], seqs[n])
    ensures rows == SerialRun(h, es, seqs)
  {
    hide NewRow;
    assert rows == rows[..n] + [rows[n]];
  }

  /** A serial table is the serial run of its own events, in its own order. */
  lemma {:induction false} SerialIsRun(h: Hasher, rows: seq<Row>)
    requires Serial(h, rows)
    ensures rows == SerialRun(h, EventsOf(rows), SeqsOf(rows))
  {
    if rows != [] {
      hide *;
      var n := |rows| - 1;
      SerialIsIncreasing(h, rows);
      SerialPrefix(h, rows, n);
      SerialLast(h, rows, n);
      PrefixColumns(rows, n);
      SerialIsRun(h, rows[..n]);
      SerialRunLast(h, rows, EventsOf(rows), SeqsOf(rows), n);
    } else {
      assert SerialRun(h, EventsOf(rows), SeqsOf(rows)) == [];
    }
  }

  /** Storing and reading back an event that the table accepts does not change it. */
  lemma StoredEvent(rows: seq<Row>, e: Event, rowHash: string, prev: Option<string>, s: int)
    requires Insertable(rows, e)
    ensures RowToEvent(BuildInsertParams(e, rowHash, prev, s)) == e
  {
  }

  /** Appending under a larger sequence number keeps a table serial. */
  lemma SerialAppend(h: Hasher, rows: seq<Row>, e: Event, s: int)
    requires Serial(h, rows) && Insertable(rows, e)
    requires forall i :: 0 <= i < |rows| ==> rows[i].seqNo.value < s
    ensures Serial(h, rows + [NewRow(h, rows, e, s)])
  {
    var after := rows + [NewRow(h, rows, e, s)];
    var n := |rows|;
    StoredEvent(rows, e, ComputeRowHash(h, e, LatestRowHash(rows)), LatestRowHash(rows), s);
    forall i | 0 <= i < |after| ensures SerialAt(h, after, i) {
      if i < n {
        assert after[..i] == rows[..i];
        assert SerialAt(h, rows, i);
      } else {
        assert after[..n] == rows;
      }
    }
  }

  lemma {:induction false} NextSeqIsLarger(rows: seq<Row>)
    requires Increasing(rows)
    ensures forall i :: 0 <= i < |rows| ==> rows[i].seqNo.value < NextSeq(rows)
    ensures rows == [] <==> MaxSeq(rows).None?
    ensures rows != [] ==> MaxSeq(rows) == rows[|rows| - 1].seqNo
  {
    if rows != [] { NextSeqIsLarger(rows[..|rows| - 1]); }
  }

  /** Every append of the SQLite path keeps the table serial. */
  lemma SqliteAppendIsSerial(h: Hasher, rows: seq<Row>, e: Event)
    requires Serial(h, rows) && Insertable(rows, e)
    ensures Serial(h, rows + [NewRow(h, rows, e, NextSeq(rows))])
  {
    NextSeqIsLarger(rows);
    SerialAppend(h, rows, e, NextSeq(rows));
  }

  // ---- the tail that appending reads ----

  /** The first n rows have non-decreasing timestamps. */
  predicate InTimeOrder(rows: seq<Row>, n: nat)
    requires n <= |rows|
  {
    forall i, j :: 0 <= i < j < n ==> !StrLess(rows[j].timestamp, rows[i].timestamp)
  }

  predicate AllHashed(rows: seq<Row>) {
    forall i :: 0 <= i < |rows| ==> rows[i].rowHash.Some?
  }

  /** The tail has a largest timestamp. */
  lemma {:induction false} TailIsLatest(rows: seq<Row>)
    requires AllHashed(rows) && Increasing(rows) && rows != []
    ensures TailIndex(rows).Some?
    ensures forall j :: 0 <= j < |rows| ==> !StrLess(rows[TailIndex(rows).value].timestamp, rows[j].timestamp)
  {
    var n := |rows| - 1;
    var front := rows[..n];
    StrLessIrreflexive(rows[n].timestamp);
    if front != [] {
      TailIsLatest(front);
      var t := TailIndex(front).value;
      StrLessTotal(rows[n].timestamp, rows[t].timestamp);
      forall j | 0 <= j < |rows|
        ensures !StrLess(rows[TailIndex(rows).value].timestamp, rows[j].timestamp)
      {
        if j < n && !StrLess(rows[n].timestamp, rows[t].timestamp) {
          NotLessTransitive(front[j].timestamp, rows[t].timestamp, rows[n].timestamp);
        }
      }
    }
  }

  /** The last row is the tail exactly when no earlier row has a later timestamp. */
  lemma TailIsLast(rows: seq<Row>)
    requires AllHashed(rows) && Increasing(rows) && rows != []
    ensures TailIndex(rows) == Some(|rows| - 1)
       <==> forall j :: 0 <= j < |rows| ==> !StrLess(rows[|rows| - 1].timestamp, rows[j].timestamp)
  {
    var n := |rows| - 1;
    TailIsLatest(rows);
    StrLessIrreflexive(rows[n].timestamp);
    if n > 0 {
      TailIsLatest(rows[..n]);
      var t := TailIndex(rows[..n]).value;
      assert rows[..n][t] == rows[t];
    }
  }

  /** Every append found the previous row as its tail. */
  predicate TailsAreLast(rows: seq<Row>) {
    forall k {:trigger rows[..k]} :: 1 <= k < |rows| ==> TailIndex(rows[..k]) == Some(k - 1)
  }

  lemma TailsIffTimeOrder(rows: seq<Row>)
    requires AllHashed(rows) && Increasing(rows) && rows != []
    ensures TailsAreLast(rows) <==> InTimeOrder(rows, |rows| - 1)
  {
    forall k | 1 <= k < |rows|
      ensures TailIndex(rows[..k]) == Some(k - 1)
         <==> forall j :: 0 <= j < k ==> !StrLess(rows[k - 1].timestamp, rows[j].timestamp)
    {
      TailIsLast(rows[..k]);
      assert forall j :: 0 <= j < k ==> rows[..k][j] == rows[j];
    }
    if TailsAreLast(rows) {
      forall i, j | 0 <= i < j < |rows| - 1 ensures !StrLess(rows[j].timestamp, rows[i].timestamp) {
        assert TailIndex(rows[..j + 1]) == Some(j + 1 - 1);
      }
    }
    if InTimeOrder(rows, |rows| - 1) {
      forall k | 1 <= k < |rows| ensures TailIndex(rows[..k]) == Some(k - 1) {
        StrLessIrreflexive(rows[k - 1].timestamp);
      }
    }
  }

  lemma SerialIsHashed(h: Hasher, rows: seq<Row>)
    requires Serial(h, rows)
    ensures AllHashed(rows)
  {
    forall i | 0 <= i < |rows| ensures rows[i].rowHash.Some? {
      assert SerialAt(h, rows, i);
    }
  }

  lemma SerialIdsDiffer(h: Hasher, rows: seq<Row>, i: nat, j: nat)
    requires Serial(h, rows) && i < j < |rows|
    ensures rows[i].id != rows[j].id
  {
    assert SerialAt(h, rows, j) && rows[..j][i] == rows[i];
  }

  /** Append k read the hash of its tail, and the walk that of row k - 1. */
  lemma SharedHash(h: Hasher, rows: seq<Row>, k: nat) returns (j: nat)
    requires Serial(h, rows) && Chained(h, rows)
    requires 1 <= k < |rows| && TailIndex(rows[..k]) != Some(k - 1)
    ensures j < k - 1 && rows[j].rowHash == rows[k - 1].rowHash
  {
    SerialIsHashed(h, rows);
    assert SerialAt(h, rows, k) && LinkedAt(h, rows, k);
    assert rows[..k] != [] && AllHashed(rows[..k]) && Increasing(rows[..k]);
    TailIsLatest(rows[..k]);
    j := TailIndex(rows[..k]).value;
  }

  lemma SharedHashCollides(h: Hasher, rows: seq<Row>, i: nat, j: nat) returns (s: string, t: string)
    requires Rendering(h) && i < |rows| && j < |rows| && LinkedAt(h, rows, i) && LinkedAt(h, rows, j)
    requires rows[i].id != rows[j].id && rows[i].rowHash == rows[j].rowHash
    ensures Collision(h, s, t)
  {
    s, t := h.render(PayloadOf(rows[i], ExpectedPrev(rows, i))), h.render(PayloadOf(rows[j], ExpectedPrev(rows, j)));
  }

  /** If the walk accepts a serial table although some append read another tail, two payloads with
      different ids have the same digest. */
  lemma WrongTailCollides(h: Hasher, rows: seq<Row>, k: nat) returns (s: string, t: string)
    requires Rendering(h) && Serial(h, rows) && Chained(h, rows)
    requires 1 <= k < |rows| && TailIndex(rows[..k]) != Some(k - 1)
    ensures Collision(h, s, t)
  {
    var j := SharedHash(h, rows, k);
    SerialIdsDiffer(h, rows, j, k - 1);
    hide Serial, TailIndex, LinkedAt;
    s, t := SharedHashCollides(h, rows, j, k - 1);
  }

  /** A serial run of appends passes the walk exactly when the timestamps of all rows but the last
      are non-decreasing in sequence order, or a hash collision is exhibited. */
  lemma SerialVerifiesIff(h: Hasher, rows: seq<Row>) returns (s: string, t: string)
    requires Rendering(h) && Serial(h, rows) && rows != []
    ensures InTimeOrder(rows, |rows| - 1) ==> Chained(h, rows)
    ensures Chained(h, rows) && !InTimeOrder(rows, |rows| - 1) ==> Collision(h, s, t)
  {
    s, t := "", "";
    SerialIsHashed(h, rows);
    TailsIffTimeOrder(rows);
    if InTimeOrder(rows, |rows| - 1) {
      forall i | 0 <= i < |rows| ensures LinkedAt(h, rows, i) {
        assert SerialAt(h, rows, i);
        if i > 0 { assert TailIndex(rows[..i]) == Some(i - 1); }
      }
    } else if Chained(h, rows) {
      var k :| 1 <= k < |rows| && TailIndex(rows[..k]) != Some(k - 1);
      s, t := WrongTailCollides(h, rows, k);
    }
  }

  // ---- the query order of the walk ----

  lemma InsertLast(rows: seq<Row>, r: Row)
    requires rows != [] ==> !SeqBefore(r, rows[|rows| - 1])
    ensures InsertSorted(rows, r) == rows + [r]
  {
  }

  lemma LastIsLast(rows: seq<Row>)
    requires Increasing(rows) && |rows| > 1
    ensures Increasing(rows[..|rows| - 1]) && !SeqBefore(rows[|rows| - 1], rows[|rows| - 2])
  {
  }

  lemma {:induction false} FetchIsIdentity(rows: seq<Row>)
    requires Increasing(rows)
    ensures FetchOrdered(rows) == rows
  {
    hide InsertSorted, SeqBefore, Increasing;
    if |rows| > 1 {
      var n := |rows| - 1;
      LastIsLast(rows);
      FetchIsIdentity(rows[..n]);
      InsertLast(rows[..n], rows[n]);
      assert rows[..n] + [rows[n]] == rows;
    } else if rows != [] {
      InsertLast([], rows[0]);
      assert rows[..0] == [] && [] + [rows[0]] == rows;
    }
  }

  lemma {:induction false} FilterIsIdentity(rows: seq<Row>)
    requires AllHashed(rows)
    ensures FilterChainRows(rows) == rows
  {
    if rows != [] {
      FilterIsIdentity(rows[..|rows| - 1]);
      assert rows == rows[..|rows| - 1] + [rows[|rows| - 1]];
    }
  }

  /** The same for the report on a whole table: no failures exactly in time order, up to collisions. */
  lemma SerialReport(h: Hasher, rows: seq<Row>) returns (s: string, t: string)
    requires Rendering(h) && Serial(h, rows) && rows != []
    ensures VerifyReport(h, rows).checked == |rows|
    ensures InTimeOrder(rows, |rows| - 1) ==> VerifyReport(h, rows).failures == []
    ensures VerifyReport(h, rows).valid && !InTimeOrder(rows, |rows| - 1) ==> Collision(h, s, t)
  {
    SerialIsHashed(h, rows);
    FetchIsIdentity(rows);
    FilterIsIdentity(rows);
    FailuresIff(h, rows, |rows|);
    s, t := SerialVerifiesIff(h, rows);
  }

  // ---- the same under a clock that never goes back ----

  /** Each row is stamped with the rendering of its instant, and instants never go back. */
  ghost predicate Clocked(rows: seq<Row>, instants: seq<Instant>) {
    && |instants| == |rows|
    && (forall i :: 0 <= i < |rows| ==> IsInstant(instants[i]) && rows[i].timestamp == Render(instants[i]))
    && (forall i, j :: 0 <= i < j < |rows| ==> !Before(instants[j], instants[i]))
  }

  /** The earlier instant is a whole second, and the later one falls in that second. */
  predicate WholeThenFraction(a: Instant, b: Instant) {
    SameSecond(a, b) && a.micro == 0 && b.micro != 0
  }

  /** Among the first n instants no whole second is followed by a fraction of the same second. */
  predicate NoWholeThenFraction(instants: seq<Instant>, n: nat)
    requires n <= |instants|
  {
    forall i, j :: 0 <= i < j < n ==> !WholeThenFraction(instants[i], instants[j])
  }

  lemma LaterIsLess(a: Instant, b: Instant)
    requires IsInstant(a) && IsInstant(b) && !Before(b, a)
    ensures StrLess(Render(b), Render(a)) <==> WholeThenFraction(a, b)
  {
    hide Render, StrLess;
    StringOrderIsTimeOrder(b, a);
    if SameSecond(a, b) { FieldsLessIrreflexive(Fields(a)); }
  }

  lemma ClockOrderIff(rows: seq<Row>, instants: seq<Instant>, n: nat)
    requires Clocked(rows, instants) && n <= |rows|
    ensures InTimeOrder(rows, n) <==> NoWholeThenFraction(instants, n)
  {
    hide Render, StrLess, WholeThenFraction, Before, IsInstant;
    forall i, j | 0 <= i < j < n
      ensures StrLess(rows[j].timestamp, rows[i].timestamp) <==> WholeThenFraction(instants[i], instants[j])
    {
      LaterIsLess(instants[i], instants[j]);
    }
  }

  /** Even with a clock that never goes back, a serial run fails the walk exactly when, before its last row,
      an event stamped on a whole second is followed by one in the fractions of that second; or a collision
      is exhibited. */
  lemma ClockedVerifiesIff(h: Hasher, rows: seq<Row>, instants: seq<Instant>) returns (s: string, t: string)
    requires Rendering(h) && Serial(h, rows) && rows != [] && Clocked(rows, instants)
    ensures NoWholeThenFraction(instants, |rows| - 1) ==> VerifyReport(h, rows).valid
    ensures VerifyReport(h, rows).valid && !NoWholeThenFraction(instants, |rows| - 1) ==> Collision(h, s, t)
    ensures ForkFree(rows) <==> NoWholeThenFraction(instants, |rows| - 1)
  {
    ClockOrderIff(rows, instants, |rows| - 1);
    SerialIsHashed(h, rows);
    ForkFreeIff(rows);
    hide NoWholeThenFraction, InTimeOrder, ForkFree, Clocked;
    s, t := SerialReport(h, rows);
  }

  function Stamped(id: string, timestamp: string): Event {
    Event(id, timestamp, "s", "r", "a", "x", true, "ok", None, None, false, "legacy_mode", "not_checked",
          None, "w", None, None, None)
  }

  const WHOLE := Instant(2024, 1, 1, 0, 0, 0, 0)
  const FRACTION := Instant(2024, 1, 1, 0, 0, 0, 1)

  lemma AppendStamped(h: Hasher, rows: seq<Row>, instants: seq<Instant>, id: string, t: Instant) returns (after: seq<Row>)
    requires Serial(h, rows) && Clocked(rows, instants) && IsInstant(t)
    requires forall i :: 0 <= i < |rows| ==> rows[i].id != id && !Before(t, instants[i])
    ensures Serial(h, after) && Clocked(after, instants + [t]) && |after| == |rows| + 1
    ensures forall i :: 0 <= i < |after| ==> after[i].id == if i < |rows| then rows[i].id else id
  {
    SqliteAppendIsSerial(h, rows, Stamped(id, Render(t)));
    hide Render, ComputeRowHash, TailIndex, MaxSeq, Serial, Before, IsInstant;
    after := rows + [NewRow(h, rows, Stamped(id, Render(t)), NextSeq(rows))];
  }

  /** Three appends within one second, the first at its very start. */
  lemma ThreeStamped(h: Hasher) returns (rows: seq<Row>)
    ensures Serial(h, rows) && Clocked(rows, [WHOLE, FRACTION, FRACTION]) && |rows| == 3
  {
    hide Serial, Clocked;
    EmptyIsSerial(h);
    rows := AppendStamped(h, [], [], "a", WHOLE);
    rows := AppendStamped(h, rows, [WHOLE], "b", FRACTION);
    assert [WHOLE] + [FRACTION] == [WHOLE, FRACTION];
    rows := AppendStamped(h, rows, [WHOLE, FRACTION], "c", FRACTION);
    assert [WHOLE, FRACTION] + [FRACTION] == [WHOLE, FRACTION, FRACTION];
  }

  lemma EmptyIsSerial(h: Hasher)
    ensures Serial(h, []) && Clocked([], []) && [] + [WHOLE] == [WHOLE]
  {
  }

  lemma WholeComesFirst()
    ensures !NoWholeThenFraction([WHOLE, FRACTION, FRACTION], 2)
  {
    var instants := [WHOLE, FRACTION, FRACTION];
    assert WholeThenFraction(instants[0], instants[1]);
  }

  /** The failing case occurs, for every hash function. */
  lemma ClockedCanFail(h: Hasher) returns (rows: seq<Row>, s: string, t: string)
    requires Rendering(h)
    ensures var instants := [WHOLE, FRACTION, FRACTION];
      && Serial(h, rows) && Clocked(rows, instants) && !NoWholeThenFraction(instants, 2)
    ensures !ForkFree(rows) && (VerifyReport(h, rows).valid ==> Collision(h, s, t))
  {
    hide *;
    rows := ThreeStamped(h);
    WholeComesFirst();
    s, t := ClockedVerifiesIff(h, rows, [WHOLE, FRACTION, FRACTION]);
  }

  // ---- forks ----

  /** No two rows were appended to the same predecessor row. */
  predicate ForkFree(rows: seq<Row>) {
    forall i, j {:trigger rows[..i], rows[..j]} :: 0 <= i < j < |rows| ==> TailIndex(rows[..i]) != TailIndex(rows[..j])
  }

  /** The tail of a table is the tail of every shorter prefix that contains it. */
  lemma {:induction false} TailOfPrefix(rows: seq<Row>, m: nat)
    requires AllHashed(rows) && Increasing(rows)
    requires m <= |rows| && TailIndex(rows).Some? && TailIndex(rows).value < m
    ensures TailIndex(rows[..m]) == TailIndex(rows)
  {
    var n := |rows| - 1;
    if m <= n {
      TailOfPrefix(rows[..n], m);
      assert rows[..n][..m] == rows[..m];
    } else {
      assert rows[..m] == rows;
    }
  }

  lemma LastTailsDoNotFork(rows: seq<Row>)
    requires TailsAreLast(rows)
    ensures ForkFree(rows)
  {
    assert TailIndex(rows[..0]) == None;
    hide TailIndex;
    forall i, j | 0 <= i < j < |rows| ensures TailIndex(rows[..i]) != TailIndex(rows[..j]) {
      assert TailIndex(rows[..j]) == Some(j - 1);
      if i > 0 { assert TailIndex(rows[..i]) == Some(i - 1); }
    }
  }

  lemma OtherTailForks(rows: seq<Row>, k: nat)
    requires AllHashed(rows) && Increasing(rows)
    requires 1 <= k < |rows| && TailIndex(rows[..k]) != Some(k - 1)
    ensures !ForkFree(rows)
  {
    TailIsLatest(rows[..k]);
    hide TailIndex;
    var t := TailIndex(rows[..k]).value;
    TailOfPrefix(rows[..k], t + 1);
    assert rows[..k][..t + 1] == rows[..t + 1];
    assert TailIndex(rows[..t + 1]) == TailIndex(rows[..k]);
  }

  /** The chain forks exactly when the timestamps of all rows but the last are out of order. */
  lemma ForkFreeIff(rows: seq<Row>)
    requires AllHashed(rows) && Increasing(rows) && rows != []
    ensures ForkFree(rows) <==> InTimeOrder(rows, |rows| - 1)
  {
    TailsIffTimeOrder(rows);
    if TailsAreLast(rows) {
      LastTailsDoNotFork(rows);
    } else {
      var k :| 1 <= k < |rows| && TailIndex(rows[..k]) != Some(k - 1);
      OtherTailForks(rows, k);
    }
  }

  // ---- what a chain of hashes binds ----

  /** The rows with their hashes replaced by the fold over their fields. */
  function Relink(h: Hasher, rows: seq<Row>): (linked: seq<Row>)
    ensures |linked| == |rows|
  {
    if rows == [] then []
    else
      var n := |rows| - 1;
      var front := Relink(h, rows[..n]);
      var prev := if n > 0 then front[n - 1].rowHash else None;
      front + [rows[n].(prevHash := prev, rowHash := Some(ComputeRowHash(h, RowToEvent(rows[n]), prev)))]
  }

  lemma ChainedSnoc(h: Hasher, rows: seq<Row>)
    requires rows != []
    ensures Chained(h, rows) <==> Chained(h, rows[..|rows| - 1]) && LinkedAt(h, rows, |rows| - 1)
  {
    var n := |rows| - 1;
    assert forall i :: 0 <= i < n ==> (LinkedAt(h, rows, i) <==> LinkedAt(h, rows[..n], i));
  }

  /** For each sequence of row contents exactly one assignment of prev_hash and row_hash is
      accepted: the fold. */
  lemma {:induction false} ChainedIffRelinked(h: Hasher, rows: seq<Row>)
    ensures Chained(h, rows) <==> rows == Relink(h, rows)
    ensures Chained(h, Relink(h, rows))
  {
    if rows != [] {
      var n := |rows| - 1;
      var linked := Relink(h, rows);
      ChainedIffRelinked(h, rows[..n]);
      ChainedSnoc(h, rows);
      ChainedSnoc(h, linked);
      assert linked[..n] == Relink(h, rows[..n]);
      assert rows == rows[..n] + [rows[n]];
      if rows == linked { assert rows[..n] == linked[..n]; }
    }
  }

  /** Every prefix of an accepted chain is accepted: the walk cannot see a removed tail. */
  lemma PrefixAccepted(h: Hasher, rows: seq<Row>, n: nat)
    requires Chained(h, rows) && n <= |rows|
    ensures Chained(h, rows[..n]) && Failures(h, rows[..n], n) == []
  {
    FailuresIff(h, rows[..n], n);
    assert forall i :: 0 <= i < n ==> (LinkedAt(h, rows, i) <==> LinkedAt(h, rows[..n], i));
  }

  /** The rows at which the walk reports a failure. */
  predicate FailsExactlyAt(h: Hasher, rows: seq<Row>, k: int) {
    forall i :: 0 <= i < |rows| ==> (LinkedAt(h, rows, i) <==> i != k)
  }

  /** The flag is set. */
  predicate IsSet(flag: Option<int>) {
    flag.Some? && flag.value != 0
  }

  /** Two stored texts that read the same: equal, or each of them missing, empty or the default. */
  predicate SameText(a: Option<string>, b: Option<string>, default: string) {
    a == b || ((a.None? || a.value == "" || a.value == default) && (b.None? || b.value == "" || b.value == default))
  }

  /** The two rows differ in some column that enters the hash, as it is read. */
  predicate HashedFieldsDiffer(a: Row, b: Row) {
    || a.id != b.id || a.timestamp != b.timestamp || a.subjectId != b.subjectId || a.role != b.role
    || a.action != b.action || a.resource != b.resource || (a.approved != 0) != (b.approved != 0) || a.reason != b.reason
    || a.matchedGrantId != b.matchedGrantId || a.challengeId != b.challengeId
    || IsSet(a.challengePresent) != IsSet(b.challengePresent)
    || !SameText(a.challengeResult, b.challengeResult, "legacy_mode")
    || !SameText(a.grantSignatureResult, b.grantSignatureResult, "not_checked")
    || a.tenantId != b.tenantId
  }

  /** Exactly these columns are bound. */
  lemma HashedFieldsIff(a: Row, b: Row, prev: Option<string>)
    ensures HashedFieldsDiffer(a, b) <==> PayloadOf(a, prev) != PayloadOf(b, prev)
  {
  }

  /** Changing a hashed column of row k alone is reported at index k, as a row hash mismatch, and nowhere else,
      or the old and the new content of the row collide. */
  lemma EditIsLocated(h: Hasher, rows: seq<Row>, k: nat, r: Row) returns (s: string, t: string)
    requires Rendering(h) && Chained(h, rows) && k < |rows|
    requires r.rowHash == rows[k].rowHash && r.prevHash == rows[k].prevHash && HashedFieldsDiffer(r, rows[k])
    ensures Collision(h, s, t) ||
      (FailsExactlyAt(h, rows[k := r], k) && FailuresAt(h, rows[k := r], k) == [Failure(r.id, k, RowHashMismatch)])
  {
    var after, prev := rows[k := r], ExpectedPrev(rows, k);
    assert LinkedAt(h, rows, k);
    HashedFieldsIff(r, rows[k], prev);
    s, t := h.render(PayloadOf(rows[k], prev)), h.render(PayloadOf(r, prev));
    EventPayload(r, prev);
    hide PayloadOf, HashPayload, HashedFieldsDiffer, RowToEvent;
    forall i | 0 <= i < |after| && i != k ensures LinkedAt(h, after, i) {
      assert LinkedAt(h, rows, i);
    }
  }

  /** Changing no hashed column of row k - only the workspace, the scope, the reason code, the constraint
      violation, the seq, or how a flag or a default is stored - is not noticed. */
  lemma UnhashedEditIsAccepted(h: Hasher, rows: seq<Row>, k: nat, r: Row)
    requires Chained(h, rows) && k < |rows|
    requires r.rowHash == rows[k].rowHash && r.prevHash == rows[k].prevHash && !HashedFieldsDiffer(r, rows[k])
    ensures Chained(h, rows[k := r]) && Failures(h, rows[k := r], |rows|) == []
  {
    var after, prev := rows[k := r], ExpectedPrev(rows, k);
    HashedFieldsIff(r, rows[k], prev);
    hide PayloadOf, HashedFieldsDiffer, Failures;
    forall i | 0 <= i < |after| ensures LinkedAt(h, after, i) {
      assert LinkedAt(h, rows, i);
    }
    FailuresIff(h, after, |rows|);
  }

  /** Recomputing the hash of the changed row moves the report to row k + 1, with both reasons; after
      the last row there is nothing to report. */
  lemma RehashMovesReport(h: Hasher, rows: seq<Row>, k: nat, r: Row) returns (s: string, t: string)
    requires Rendering(h) && Chained(h, rows) && k < |rows|
    requires r.prevHash == rows[k].prevHash && HashedFieldsDiffer(r, rows[k])
    requires r.rowHash == Some(h.digest(h.render(PayloadOf(r, ExpectedPrev(rows, k)))))
    ensures FailsExactlyAt(h, rows[k := r], k + 1) || Collision(h, s, t)
    ensures k + 1 < |rows| ==>
      FailuresAt(h, rows[k := r], k + 1)
        == [Failure(rows[k + 1].id, k + 1, PrevHashMismatch), Failure(rows[k + 1].id, k + 1, RowHashMismatch)]
      || Collision(h, s, t)
  {
    var after, prev := rows[k := r], ExpectedPrev(rows, k);
    assert LinkedAt(h, rows, k);
    HashedFieldsIff(r, rows[k], prev);
    s, t := h.render(PayloadOf(rows[k], prev)), h.render(PayloadOf(r, prev));
    hide HashedFieldsDiffer;
    forall i | 0 <= i < |after| && i != k + 1 ensures LinkedAt(h, after, i) {
      assert LinkedAt(h, rows, i);
    }
    if k + 1 < |rows| && !Collision(h, s, t) {
      assert LinkedAt(h, rows, k + 1);
      var p, q := PayloadOf(rows[k + 1], rows[k].rowHash), PayloadOf(rows[k + 1], r.rowHash);
      EventPayload(rows[k + 1], r.rowHash);
      assert p.prevHash == rows[k].rowHash && q.prevHash == r.rowHash;
      hide PayloadOf, HashPayload, RowToEvent;
      if h.digest(h.render(p)) == h.digest(h.render(q)) {
        s, t := h.render(p), h.render(q);
      }
    }
  }
}
