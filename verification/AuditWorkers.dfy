/** Any number of PostgreSQL workers appending to the audit chain, each inside its own transaction,
    serialized by a transaction-scoped advisory lock. */
module AuditWorkers {
  import opened Wrappers
  import opened Timestamps
  import opened AuditLog
  import opened AuditChain

  /** Where a worker is: outside a transaction; waiting for or holding the lock with the rows it has
      written but not committed; or past the read of the tail. */
  datatype Worker =
    | Idle
    | Waiting(event: Event)
    | Locked(event: Event, pending: seq<Row>)
    | TailRead(event: Event, prev: Option<string>, pending: seq<Row>)
    | Written(pending: seq<Row>)

  /** The committed table, the sequence behind the seq column, the lock holder and the workers. */
  datatype State = State(committed: seq<Row>, nextSeq: int, holder: Option<int>, workers: map<int, Worker>)

  datatype Step =
    | Begin(w: int, event: Event)   // a worker wants to append and asks for the lock
    | Acquire(w: int)               // the lock is granted
    | ReadTail(w: int)              // SELECT row_hash ... LIMIT 1, in the worker's transaction
    | Insert(w: int)                // the row is written; seq comes from nextval
    | Again(w: int, event: Event)   // the same transaction appends another event
    | Commit(w: int)                // rows become visible and the lock is released
    | Rollback(w: int, lost: nat)   // any failure: rows vanish, the lock is released, drawn numbers are lost

  function WorkerOf(s: State, w: int): Worker {
    if w in s.workers then s.workers[w] else Idle
  }

  function Pending(k: Worker): seq<Row> {
    match k
    case Locked(_, p) => p
    case TailRead(_, _, p) => p
    case Written(p) => p
    case _ => []
  }

  predicate HasLock(k: Worker) { k.Locked? || k.TailRead? || k.Written? }

  /** What the transaction of w sees: committed rows and its own. */
  function View(s: State, w: int): seq<Row> {
    s.committed + Pending(WorkerOf(s, w))
  }

  predicate Enabled(h: Hasher, s: State, step: Step) {
    match step
    case Begin(w, _) => WorkerOf(s, w).Idle?
    case Acquire(w) => WorkerOf(s, w).Waiting? && s.holder.None?
    case ReadTail(w) => WorkerOf(s, w).Locked?
    case Insert(w) => WorkerOf(s, w).TailRead? && Insertable(View(s, w), WorkerOf(s, w).event)
    case Again(w, _) => WorkerOf(s, w).Written?
    case Commit(w) => WorkerOf(s, w).Written?
    case Rollback(w, _) => !WorkerOf(s, w).Idle?
  }

  function Released(s: State, w: int): Option<int> {
    if s.holder == Some(w) then None else s.holder
  }

  /** The state after a step; a rollback does not return sequence numbers. */
  function Next(h: Hasher, s: State, step: Step): State
    requires Enabled(h, s, step)
  {
    match step
    case Begin(w, e) => s.(workers := s.workers[w := Waiting(e)])
    case Acquire(w) => s.(holder := Some(w), workers := s.workers[w := Locked(WorkerOf(s, w).event, [])])
    case ReadTail(w) =>
      var k := WorkerOf(s, w);
      s.(workers := s.workers[w := TailRead(k.event, LatestRowHash(View(s, w)), k.pending)])
    case Insert(w) =>
      var k := WorkerOf(s, w);
      var row := BuildInsertParams(k.event, ComputeRowHash(h, k.event, k.prev), k.prev, s.nextSeq);
      s.(nextSeq := s.nextSeq + 1, workers := s.workers[w := Written(k.pending + [row])])
    case Again(w, e) => s.(workers := s.workers[w := Locked(e, WorkerOf(s, w).pending)])
    case Commit(w) =>
      State(s.committed + WorkerOf(s, w).pending, s.nextSeq, Released(s, w), s.workers[w := Idle])
    case Rollback(w, lost) =>
      State(s.committed, s.nextSeq + lost, Released(s, w), s.workers[w := Idle])
  }

  function Init(): State { State([], 1, None, map[]) }

  /** states is the run that the steps make from the empty table, in any interleaving. */
  ghost predicate Execution(h: Hasher, steps: seq<Step>, states: seq<State>) {
    && |states| == |steps| + 1 && states[0] == Init()
    && forall i :: 0 <= i < |steps| ==> Enabled(h, states[i], steps[i]) && states[i + 1] == Next(h, states[i], steps[i])
  }

  ghost predicate Reachable(h: Hasher, s: State) {
    exists steps, states :: Execution(h, steps, states) && s == states[|steps|]
  }

  predicate SeqsBelow(rows: seq<Row>, n: int) {
    forall i :: 0 <= i < |rows| ==> rows[i].seqNo.Some? && rows[i].seqNo.value < n
  }

  /** At most one worker is past the lock, and what it sees is a serial table. */
  predicate Inv(h: Hasher, s: State) {
    && Serial(h, s.committed) && SeqsBelow(s.committed, s.nextSeq)
    && (forall w :: w in s.workers && HasLock(s.workers[w]) ==> s.holder == Some(w))
    && (s.holder.Some? ==>
          var k := WorkerOf(s, s.holder.value);
          && HasLock(k)
          && Serial(h, s.committed + Pending(k)) && SeqsBelow(s.committed + Pending(k), s.nextSeq)
          && (k.TailRead? ==> k.prev == LatestRowHash(s.committed + Pending(k))))
  }

  /** Every step of every worker keeps the invariant. */
  lemma StepKeepsInv(h: Hasher, s: State, step: Step)
    requires Inv(h, s) && Enabled(h, s, step)
    ensures Inv(h, Next(h, s, step))
  {
    match step
    case Begin(w, e) =>
    case Acquire(w) => assert s.committed + [] == s.committed; hide Serial;
    case ReadTail(w) => hide Serial, LatestRowHash;
    case Insert(w) => InsertKeepsInv(h, s, w);
    case Again(w, e) => hide Serial;
    case Commit(w) => hide Serial;
    case Rollback(w, lost) => hide Serial;
  }

  lemma InsertKeepsInv(h: Hasher, s: State, w: int)
    requires Inv(h, s) && Enabled(h, s, Insert(w))
    ensures Inv(h, Next(h, s, Insert(w)))
  {
    var k := WorkerOf(s, w);
    var view := View(s, w);
    var row := NewRow(h, view, k.event, s.nextSeq);
    SerialAppend(h, view, k.event, s.nextSeq);
    assert s.committed + (k.pending + [row]) == view + [row];
    hide Serial, ComputeRowHash, LatestRowHash;
  }

  lemma {:induction false} ExecutionInv(h: Hasher, steps: seq<Step>, states: seq<State>, i: nat)
    requires Execution(h, steps, states) && i <= |steps|
    ensures Inv(h, states[i])
  {
    if i > 0 {
      ExecutionInv(h, steps, states, i - 1);
      StepKeepsInv(h, states[i - 1], steps[i - 1]);
    }
  }

  lemma ReachableInv(h: Hasher, s: State)
    requires Reachable(h, s)
    ensures Inv(h, s)
  {
    var steps, states :| Execution(h, steps, states) && s == states[|steps|];
    ExecutionInv(h, steps, states, |steps|);
  }

  // ---- the events of the transactions that committed ----

  /** The events that the open transaction of w was given by the first n steps, in order. */
  function Script(steps: seq<Step>, n: nat, w: int): seq<Event>
    requires n <= |steps|
  {
    if n == 0 then []
    else
      match steps[n - 1]
      case Begin(v, e) => if v == w then [e] else Script(steps, n - 1, w)
      case Again(v, e) => if v == w then Script(steps, n - 1, w) + [e] else Script(steps, n - 1, w)
      case Commit(v) => if v == w then [] else Script(steps, n - 1, w)
      case Rollback(v, _) => if v == w then [] else Script(steps, n - 1, w)
      case _ => Script(steps, n - 1, w)
  }

  /** The events given to the transactions that committed, transaction by transaction in commit order. */
  function CommittedEvents(steps: seq<Step>, n: nat): seq<Event>
    requires n <= |steps|
  {
    if n == 0 then []
    else
      CommittedEvents(steps, n - 1) + (if steps[n - 1].Commit? then Script(steps, n - 1, steps[n - 1].w) else [])
  }

  /** The event that a worker has been given and not yet written. */
  function Unwritten(k: Worker): seq<Event> {
    if k.Waiting? || k.Locked? || k.TailRead? then [k.event] else []
  }

  /** The events a worker has written or is about to write. */
  function EventsHeld(k: Worker): seq<Event> {
    EventsOf(Pending(k)) + Unwritten(k)
  }

  lemma EventsOfConcat(a: seq<Row>, b: seq<Row>)
    ensures EventsOf(a + b) == EventsOf(a) + EventsOf(b)
  {
    hide RowToEvent;
  }

  /** What a step does to the events that a worker holds. */
  lemma HeldAfter(h: Hasher, s: State, step: Step, w: int)
    requires Enabled(h, s, step)
    ensures var before, after := EventsHeld(WorkerOf(s, w)), EventsHeld(WorkerOf(Next(h, s, step), w));
      match step
      case Begin(v, e) => after == if v == w then [e] else before
      case Again(v, e) => after == if v == w then before + [e] else before
      case Commit(v) => after == if v == w then [] else before
      case Rollback(v, _) => after == if v == w then [] else before
      case _ => after == before
  {
    hide RowToEvent, BuildInsertParams, ComputeRowHash, LatestRowHash, Insertable;
    if step.Insert? && step.w == w {
      WrittenEvent(h, s, w);
    }
  }

  lemma WrittenEvent(h: Hasher, s: State, w: int)
    requires Enabled(h, s, Insert(w))
    ensures EventsHeld(WorkerOf(Next(h, s, Insert(w)), w)) == EventsHeld(WorkerOf(s, w))
  {
    var k := WorkerOf(s, w);
    var rowHash := ComputeRowHash(h, k.event, k.prev);
    StoredEvent(View(s, w), k.event, rowHash, k.prev, s.nextSeq);
    var row := BuildInsertParams(k.event, rowHash, k.prev, s.nextSeq);
    hide RowToEvent, BuildInsertParams, ComputeRowHash, Insertable;
    EventsOfConcat(k.pending, [row]);
    assert EventsOf([row]) == [k.event];
  }

  lemma ExecutionStep(h: Hasher, steps: seq<Step>, states: seq<State>, i: nat)
    requires Execution(h, steps, states) && i < |steps|
    ensures |states| == |steps| + 1 && Enabled(h, states[i], steps[i]) && states[i + 1] == Next(h, states[i], steps[i])
  {
    hide Enabled, Next, Init;
  }

  lemma {:induction false} ScriptIsHeld(h: Hasher, steps: seq<Step>, states: seq<State>, n: nat, w: int)
    requires Execution(h, steps, states) && n <= |steps|
    ensures |states| == |steps| + 1 && Script(steps, n, w) == EventsHeld(WorkerOf(states[n], w))
  {
    if n > 0 {
      ExecutionStep(h, steps, states, n - 1);
      ScriptIsHeld(h, steps, states, n - 1, w);
      HeldAfter(h, states[n - 1], steps[n - 1], w);
      hide Execution, Enabled, Next, EventsHeld;
    }
  }

  lemma {:induction false} CommittedEventsAre(h: Hasher, steps: seq<Step>, states: seq<State>, n: nat)
    requires Execution(h, steps, states) && n <= |steps|
    ensures |states| == |steps| + 1 && EventsOf(states[n].committed) == CommittedEvents(steps, n)
  {
    if n > 0 {
      CommittedEventsAre(h, steps, states, n - 1);
      ExecutionStep(h, steps, states, n - 1);
      hide Execution;
      var s, step := states[n - 1], steps[n - 1];
      if step.Commit? {
        ScriptIsHeld(h, steps, states, n - 1, step.w);
        EventsOfConcat(s.committed, WorkerOf(s, step.w).pending);
      }
      hide EventsOf;
    }
  }

  /** Every interleaving of any number of workers, with rollbacks anywhere, leaves the table of a serial run
      of the events given to the transactions that committed, in commit order, with strictly increasing
      sequence numbers. */
  lemma InterleavingIsSerial(h: Hasher, steps: seq<Step>, states: seq<State>, n: nat)
    requires Execution(h, steps, states) && n <= |steps|
    ensures var table := states[n].committed;
      && Serial(h, table) && Increasing(table)
      && EventsOf(table) == CommittedEvents(steps, n)
      && table == SerialRun(h, CommittedEvents(steps, n), SeqsOf(table))
  {
    ExecutionInv(h, steps, states, n);
    CommittedEventsAre(h, steps, states, n);
    SerialIsRun(h, states[n].committed);
    hide SerialRun, EventsOf, SeqsOf, Script;
  }

  /** At most one transaction is between its lock and its end. */
  lemma MutualExclusion(h: Hasher, s: State, v: int, w: int)
    requires Reachable(h, s) && HasLock(WorkerOf(s, v)) && HasLock(WorkerOf(s, w))
    ensures v == w
  {
    ReachableInv(h, s);
  }

  /** Over any run committed rows are never changed or removed, and nothing is added without a commit. */
  lemma {:induction false} CommittedIsPrefix(h: Hasher, steps: seq<Step>, states: seq<State>, i: nat, j: nat)
    requires Execution(h, steps, states) && i <= j <= |steps|
    ensures states[i].committed <= states[j].committed
    ensures states[i].committed != states[j].committed ==> exists k :: i <= k < j && steps[k].Commit?
    decreases j
  {
    if i < j {
      CommittedIsPrefix(h, steps, states, i, j - 1);
      assert states[j] == Next(h, states[j - 1], steps[j - 1]);
      if !steps[j - 1].Commit? {
        assert states[j].committed == states[j - 1].committed;
      }
    }
  }

  /** The committed chain verifies and has no fork exactly when timestamps follow commit order in all
      rows but the last; a chain that verifies otherwise exhibits a hash collision. */
  lemma InterleavingVerifiesIff(h: Hasher, s: State) returns (x: string, y: string)
    requires Rendering(h) && Reachable(h, s) && s.committed != []
    ensures ForkFree(s.committed) <==> InTimeOrder(s.committed, |s.committed| - 1)
    ensures InTimeOrder(s.committed, |s.committed| - 1) ==> VerifyReport(h, s.committed).valid
    ensures VerifyReport(h, s.committed).valid && !InTimeOrder(s.committed, |s.committed| - 1) ==> Collision(h, x, y)
  {
    ReachableInv(h, s);
    SerialIsHashed(h, s.committed);
    ForkFreeIff(s.committed);
    x, y := SerialReport(h, s.committed);
  }

  // ---- the condition is needed: two workers that stamp before they wait for the lock ----

  lemma InitReachable(h: Hasher)
    ensures Reachable(h, Init())
  {
    var steps: seq<Step>, states := [], [Init()];
    assert Execution(h, steps, states) && Init() == states[|steps|];
  }

  lemma StepReachable(h: Hasher, s: State, step: Step)
    requires Reachable(h, s) && Enabled(h, s, step)
    ensures Reachable(h, Next(h, s, step))
  {
    var steps, states :| Execution(h, steps, states) && s == states[|steps|];
    var steps', states' := steps + [step], states + [Next(h, s, step)];
    assert Execution(h, steps', states');
    assert Next(h, s, step) == states'[|steps'|];
  }

  /** A waiting worker that finds the lock free can run its append to the commit. */
  lemma WholeAppend(h: Hasher, s: State, w: int) returns (after: State)
    requires Reachable(h, s) && WorkerOf(s, w).Waiting? && s.holder.None?
    requires Insertable(s.committed, WorkerOf(s, w).event)
    ensures Reachable(h, after)
    ensures after == State(s.committed + [NewRow(h, s.committed, WorkerOf(s, w).event, s.nextSeq)],
                           s.nextSeq + 1, None, s.workers[w := Idle])
  {
    hide Reachable, Insertable, NewRow;
    assert s.committed + [] == s.committed;
    StepReachable(h, s, Acquire(w));
    var s1 := Next(h, s, Acquire(w));
    StepReachable(h, s1, ReadTail(w));
    var s2 := Next(h, s1, ReadTail(w));
    StepReachable(h, s2, Insert(w));
    var s3 := Next(h, s2, Insert(w));
    StepReachable(h, s3, Commit(w));
    after := Next(h, s3, Commit(w));
    AppendedRow(h, s.committed, WorkerOf(s, w).event, s.nextSeq);
    assert after.workers == s.workers[w := Idle];
  }

  lemma AppendedRow(h: Hasher, rows: seq<Row>, e: Event, n: int)
    ensures NewRow(h, rows, e, n) == BuildInsertParams(e, ComputeRowHash(h, e, LatestRowHash(rows)), LatestRowHash(rows), n)
  {
  }

  lemma BeginWorker(h: Hasher, s: State, w: int, e: Event) returns (after: State)
    requires Reachable(h, s) && WorkerOf(s, w).Idle?
    ensures Reachable(h, after) && after == s.(workers := s.workers[w := Waiting(e)])
  {
    StepReachable(h, s, Begin(w, e));
    after := Next(h, s, Begin(w, e));
  }

  // ---- what can be reached ----

  /** The table after appending the events one after the other, under consecutive sequence numbers. */
  function Appended(h: Hasher, rows: seq<Row>, es: seq<Event>, seqNo: int): seq<Row> {
    if es == [] then rows
    else
      var n := |es| - 1;
      var front := Appended(h, rows, es[..n], seqNo);
      front + [NewRow(h, front, es[n], seqNo + n)]
  }

  predicate AllInsertable(h: Hasher, rows: seq<Row>, es: seq<Event>, seqNo: int) {
    forall i :: 0 <= i < |es| ==> Insertable(Appended(h, rows, es[..i], seqNo), es[i])
  }

  /** Worker w has written the first n events of its transaction. */
  predicate HasWritten(h: Hasher, s: State, t: State, w: int, es: seq<Event>) {
    && t.committed == s.committed && t.holder == Some(w) && t.nextSeq == s.nextSeq + |es|
    && WorkerOf(t, w).Written? && t.workers == s.workers[w := WorkerOf(t, w)]
    && s.committed + WorkerOf(t, w).pending == Appended(h, s.committed, es, s.nextSeq)
  }

  lemma WritesOne(h: Hasher, s: State, w: int) returns (t: State)
    requires Reachable(h, s) && WorkerOf(s, w).Locked? && Insertable(View(s, w), WorkerOf(s, w).event)
    ensures Reachable(h, t)
    ensures t == s.(nextSeq := s.nextSeq + 1, workers := s.workers[w :=
      Written(WorkerOf(s, w).pending + [NewRow(h, View(s, w), WorkerOf(s, w).event, s.nextSeq)])])
  {
    hide Reachable, Insertable, NewRow, LatestRowHash, BuildInsertParams, ComputeRowHash;
    StepReachable(h, s, ReadTail(w));
    var s1 := Next(h, s, ReadTail(w));
    assert View(s1, w) == View(s, w);
    StepReachable(h, s1, Insert(w));
    t := Next(h, s1, Insert(w));
    AppendedRow(h, View(s, w), WorkerOf(s, w).event, s.nextSeq);
    assert t.workers == s.workers[w := WorkerOf(t, w)];
  }

  /** Worker w has written the events es of its transaction and is about to append e. */
  predicate IsAppending(h: Hasher, s: State, t: State, w: int, es: seq<Event>, e: Event) {
    && t.committed == s.committed && t.holder == Some(w) && t.nextSeq == s.nextSeq + |es|
    && WorkerOf(t, w).Locked? && WorkerOf(t, w).event == e && t.workers == s.workers[w := WorkerOf(t, w)]
    && View(t, w) == Appended(h, s.committed, es, s.nextSeq)
  }

  lemma BeginsAppending(h: Hasher, s: State, w: int, e: Event) returns (t: State)
    requires Reachable(h, s) && WorkerOf(s, w).Idle? && s.holder.None?
    ensures Reachable(h, t) && IsAppending(h, s, t, w, [], e)
  {
    hide Reachable;
    var u := BeginWorker(h, s, w, e);
    StepReachable(h, u, Acquire(w));
    t := Next(h, u, Acquire(w));
    assert s.committed + [] == s.committed;
    assert t.workers == s.workers[w := WorkerOf(t, w)];
  }

  lemma GoesOnAppending(h: Hasher, s: State, u: State, w: int, es: seq<Event>, e: Event) returns (t: State)
    requires Reachable(h, u) && HasWritten(h, s, u, w, es)
    ensures Reachable(h, t) && IsAppending(h, s, t, w, es, e)
  {
    hide Reachable, Appended;
    StepReachable(h, u, Again(w, e));
    t := Next(h, u, Again(w, e));
    assert t.workers == s.workers[w := WorkerOf(t, w)];
  }

  lemma Appends(h: Hasher, s: State, u: State, w: int, es: seq<Event>, e: Event) returns (t: State)
    requires Reachable(h, u) && IsAppending(h, s, u, w, es, e)
    requires Insertable(Appended(h, s.committed, es, s.nextSeq), e)
    ensures Reachable(h, t) && HasWritten(h, s, t, w, es + [e])
  {
    hide Reachable, Insertable, NewRow;
    t := WritesOne(h, u, w);
    var row := NewRow(h, View(u, w), e, u.nextSeq);
    assert s.committed + (WorkerOf(u, w).pending + [row]) == View(u, w) + [row];
    assert (es + [e])[..|es|] == es;
    assert t.workers == s.workers[w := WorkerOf(t, w)];
  }

  lemma {:induction false} WritesAll(h: Hasher, s: State, w: int, es: seq<Event>) returns (t: State)
    requires Reachable(h, s) && WorkerOf(s, w).Idle? && s.holder.None? && es != [] && AllInsertable(h, s.committed, es, s.nextSeq)
    ensures Reachable(h, t) && HasWritten(h, s, t, w, es)
  {
    hide Reachable, Insertable, Appended, HasWritten, IsAppending;
    var n := |es| - 1;
    assert Insertable(Appended(h, s.committed, es[..n], s.nextSeq), es[n]);
    var u: State;
    if n == 0 {
      u := BeginsAppending(h, s, w, es[0]);
      assert es[..n] == [];
    } else {
      assert forall i :: 0 <= i < n ==> es[..n][..i] == es[..i];
      u := WritesAll(h, s, w, es[..n]);
      u := GoesOnAppending(h, s, u, w, es[..n], es[n]);
    }
    t := Appends(h, s, u, w, es[..n], es[n]);
    assert es[..n] + [es[n]] == es;
  }

  /** A transaction may append any number of events, in order, and then commit or roll back, which costs the
      numbers drawn and any number besides. */
  lemma BatchIsReachable(h: Hasher, s: State, w: int, es: seq<Event>, lost: nat) returns (committed: State, dropped: State)
    requires Reachable(h, s) && WorkerOf(s, w).Idle? && s.holder.None? && es != [] && AllInsertable(h, s.committed, es, s.nextSeq)
    ensures Reachable(h, committed) && Reachable(h, dropped)
    ensures committed == State(Appended(h, s.committed, es, s.nextSeq), s.nextSeq + |es|, None, s.workers[w := Idle])
    ensures dropped == State(s.committed, s.nextSeq + |es| + lost, None, s.workers[w := Idle])
  {
    hide Reachable, Insertable, NewRow, AllInsertable;
    var t := WritesAll(h, s, w, es);
    StepReachable(h, t, Commit(w));
    StepReachable(h, t, Rollback(w, lost));
    hide Appended;
    committed, dropped := Next(h, t, Commit(w)), Next(h, t, Rollback(w, lost));
    assert s.workers[w := WorkerOf(t, w)][w := Idle] == s.workers[w := Idle];
  }

  /** Nobody is in a transaction. */
  ghost predicate Quiet(s: State) {
    s.holder.None? && forall w :: WorkerOf(s, w).Idle?
  }

  lemma SerialRow(h: Hasher, rows: seq<Row>, n: nat)
    requires Serial(h, rows) && n == |rows| - 1
    ensures var e := RowToEvent(rows[n]);
      && rows[n].seqNo.Some? && Insertable(rows[..n], e) && rows == rows[..n] + [NewRow(h, rows[..n], e, rows[n].seqNo.value)]
      && (n > 0 ==> rows[n - 1].seqNo.Some? && rows[n - 1].seqNo.value < rows[n].seqNo.value)
  {
    assert SerialAt(h, rows, n);
    hide NewRow, Insertable, RowToEvent;
    assert rows == rows[..n] + [rows[n]];
  }

  lemma {:induction false} SerialIsReachable(h: Hasher, rows: seq<Row>) returns (s: State)
    requires Serial(h, rows) && forall i :: 0 <= i < |rows| ==> rows[i].seqNo.Some? && rows[i].seqNo.value >= 1
    ensures Reachable(h, s) && Quiet(s) && s.committed == rows
    ensures s.nextSeq == if rows == [] then 1 else rows[|rows| - 1].seqNo.value + 1
  {
    hide Reachable, NewRow, RowToEvent, Insertable;
    if rows == [] {
      InitReachable(h);
      s := Init();
    } else {
      var n := |rows| - 1;
      SerialPrefix(h, rows, n);
      SerialRow(h, rows, n);
      hide Serial;
      s := SerialIsReachable(h, rows[..n]);
      var quiet := s;
      var e, number := RowToEvent(rows[n]), rows[n].seqNo.value;
      s := BeginWorker(h, s, 1, e);
      StepReachable(h, s, Rollback(1, number - s.nextSeq));
      s := Next(h, s, Rollback(1, number - s.nextSeq));
      s := BeginWorker(h, s, 1, e);
      s := WholeAppend(h, s, 1);
      assert forall w :: w != 1 ==> WorkerOf(s, w) == WorkerOf(quiet, w);
    }
  }

  /** Numbers start at 1. */
  ghost predicate FromOne(s: State) {
    && s.nextSeq >= 1 && NumbersFromOne(s.committed)
    && forall w :: w in s.workers ==> NumbersFromOne(Pending(s.workers[w]))
  }

  predicate NumbersFromOne(rows: seq<Row>) {
    forall i :: 0 <= i < |rows| ==> rows[i].seqNo.Some? && rows[i].seqNo.value >= 1
  }

  lemma StepKeepsFromOne(h: Hasher, s: State, step: Step)
    requires FromOne(s) && Enabled(h, s, step)
    ensures FromOne(Next(h, s, step))
  {
    hide Insertable, ComputeRowHash, LatestRowHash;
  }

  lemma {:induction false} ExecutionFromOne(h: Hasher, steps: seq<Step>, states: seq<State>, i: nat)
    requires Execution(h, steps, states) && i <= |steps|
    ensures FromOne(states[i])
  {
    hide FromOne, Next, Enabled;
    if i > 0 {
      ExecutionFromOne(h, steps, states, i - 1);
      StepKeepsFromOne(h, states[i - 1], steps[i - 1]);
    } else {
      InitFromOne();
    }
  }

  lemma InitFromOne()
    ensures FromOne(Init())
  {
  }

  /** The tables that workers can leave behind, with any interleaving, batching and failures, are exactly the
      serial tables with numbers from 1 on. */
  lemma ReachableIffSerial(h: Hasher, rows: seq<Row>)
    ensures (exists s :: Reachable(h, s) && s.committed == rows) <==> Serial(h, rows) && NumbersFromOne(rows)
  {
    hide Serial, FromOne;
    forall s | Reachable(h, s) && s.committed == rows ensures Serial(h, rows) && NumbersFromOne(rows) {
      var steps, states :| Execution(h, steps, states) && s == states[|steps|];
      hide Execution;
      ReachableInv(h, s);
      ExecutionFromOne(h, steps, states, |steps|);
      InvAndNumbers(h, s);
    }
    hide Reachable;
    if Serial(h, rows) && NumbersFromOne(rows) {
      var s := SerialIsReachable(h, rows);
    }
  }

  lemma InvAndNumbers(h: Hasher, s: State)
    requires Inv(h, s) && FromOne(s)
    ensures Serial(h, s.committed) && NumbersFromOne(s.committed)
  {
    hide Serial;
  }

  /** Two workers that stamp at times 2 and 1 and commit in that order, followed by a third, leave a
      forked chain, although no worker misbehaved. */
  lemma InversionForks(h: Hasher) returns (s: State)
    ensures Reachable(h, s) && |s.committed| == 3
    ensures !InTimeOrder(s.committed, 2) && !ForkFree(s.committed)
  {
    hide Reachable, NewRow;
    InitReachable(h);
    s := BeginWorker(h, Init(), 2, Stamped("b", "1"));
    s := BeginWorker(h, s, 1, Stamped("a", "2"));
    s := WholeAppend(h, s, 1);
    AppendedRow(h, [], Stamped("a", "2"), 1);
    var one := s.committed;
    s := WholeAppend(h, s, 2);
    AppendedRow(h, one, Stamped("b", "1"), 2);
    var two := s.committed;
    s := BeginWorker(h, s, 3, Stamped("c", "3"));
    s := WholeAppend(h, s, 3);
    AppendedRow(h, two, Stamped("c", "3"), 3);
    assert s.committed[0].timestamp == "2" && s.committed[1].timestamp == "1";
    assert StrLess("1", "2");
    ReachableInv(h, s);
    SerialIsHashed(h, s.committed);
    ForkFreeIff(s.committed);
  }
}
