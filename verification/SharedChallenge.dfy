/** A challenge is meant to be used once.  With overlapping requests it is not: any number of executions can
    succeed on one challenge, when every request reads it before the first one marks it. */
module SharedChallenge {
  import opened Wrappers
  import opened Decision
  import opened DecisionProtocol
  import opened DecisionHistory
  import opened SoloHandler
  import Challenges
  import GrantPayload
  import GrantRepository
  import Keyring
  import Timestamps

  // ---- one request ----

  const GRANT := "g"
  const CHALLENGE := "c"
  const NOW := Timestamps.Instant(2024, 1, 1, 0, 0, 0, 0)
  const ISSUE := Challenges.Create(CHALLENGE, "s", "a", "r", NOW, Some("t"), None)
  const CALL := Challenges.Call(CHALLENGE, "s", "a", "r", None, NOW, NOW)
  const FIELDS := GrantPayload.GrantFields("a", "", GRANT, "", "r", "", "s", "", "", None)
  const ROW := GrantRepository.GrantRow(FIELDS, GrantRepository.Signature(None, None, None), None, None, 0, "t", "w")
  const POLICY := PolicyResult(true, "", Some(GRANT), None)
  const INQUIRY := Inquiry(true, Some(CHALLENGE), Challenges.Valid, POLICY, [ROW])
  const ACCEPT: GrantRepository.GrantRow -> Keyring.SignatureResult := g => Keyring.Valid

  /** The handler has read the challenge and found it valid. */
  function HasRead(e: string): Session {
    Evaluated(e, POLICY, [ROW], Some(Looked(CALL, Challenges.Valid, false)))
  }

  function Reading(w: int, e: string): seq<Step> {
    [Start(w, e), Evaluate(w, POLICY, [ROW]), Look(w, CALL)]
  }

  function Judging(w: int): (steps: seq<Step>)
    ensures |steps| == 2
  {
    [Mark(w), Decide(w, INQUIRY, ACCEPT)]
  }

  lemma Reads(s: State, w: int, e: string) returns (states: seq<State>)
    requires SessionOf(s, w).Idle? && e !in s.used
    requires GRANT in s.db.grants && s.db.grants[GRANT] == ROW && Challenges.Decide(s.challenges, CALL).Valid?
    ensures Path(s, Reading(w, e), states)
    ensures var t := Last(states);
      && SessionOf(t, w) == HasRead(e) && OthersStay(s, t, w)
      && t.db == s.db && t.challenges == s.challenges && t.used == s.used + {e}
  {
    hide Challenges.Decide;
    var s1 := Next(s, Start(w, e));
    assert Eligible(ROW) && ROW in [ROW];
    assert Enabled(s1, Evaluate(w, POLICY, [ROW]));
    var s2 := Next(s1, Evaluate(w, POLICY, [ROW]));
    var s3 := Next(s2, Look(w, CALL));
    states := [s, s1, s2, s3];
  }

  predicate Unlimited(s: State) {
    GRANT in s.db.grants && s.db.grants[GRANT].maxUses.None?
  }

  /** The mark and the judgement. */
  lemma Judges(s: State, w: int, e: string, v: string) returns (states: seq<State>)
    requires SessionOf(s, w) == HasRead(e) && (forall id :: !Locked(s, id)) && v !in s.used
    ensures Path(s, Judging(w), states) && BackedAt(states, Judging(w), 1, e, CHALLENGE)
    ensures var t := Last(states);
      Runs(t, w, e, v, POLICY, Begun) && OthersStay(s, t, w) && t.db == s.db && t.used == s.used
  {
    hide RowOf, EventOf, AfterMark;
    var s1 := Next(s, Mark(w));
    states := [s, s1, Next(s1, Decide(w, INQUIRY, ACCEPT))];
    DecidedRuns(s, s1, w, e, v, INQUIRY, ACCEPT);
    hide Runs, Locked;
  }

  lemma BackedMoves(first: seq<State>, front: seq<Step>, d: nat, states: seq<State>, steps: seq<Step>, k: nat, e: string)
    requires d < |first| && d < |front| && k < |states| && k < |steps| && first[d] == states[k] && front[d] == steps[k]
    requires BackedAt(first, front, d, e, CHALLENGE)
    ensures BackedAt(states, steps, k, e, CHALLENGE)
  {
    hide Decidable, Approvable;
  }

  /** An unlimited grant gives a use to everyone. */
  lemma Succeeds(s: State, e: string, v: string)
    requires Unlimited(s)
    ensures var db := Written(s.db, e, v, POLICY);
      && GRANT in db.grants && db.grants[GRANT].maxUses.None?
      && db.executions == s.db.executions[e := RowOf(POLICY, Some(v))]
  {
    hide RowOf, EventOf;
  }

  /** A request that has read the challenge goes on to its commit. */
  lemma Finishes(s: State, w: int, e: string, v: string) returns (steps: seq<Step>, states: seq<State>)
    requires SessionOf(s, w) == HasRead(e) && Unlimited(s) && (forall id :: !Locked(s, id)) && v !in s.used
    ensures Path(s, steps, states) && |steps| > 1 && |states| == |steps| + 1 && BackedAt(states, steps, 1, e, CHALLENGE)
    ensures var t := Last(states);
      && SessionOf(t, w).Done? && OthersStay(s, t, w) && Unlimited(t) && t.used <= s.used + {v}
      && t.db.executions == s.db.executions[e := RowOf(POLICY, Some(v))]
  {
    hide HasRead, Locked, RowOf, SessionOf, BackedAt, Runs, Path, Judging, Written, Settled;
    Succeeds(s, e, v);
    var first := Judges(s, w, e, v);
    PathLength(s, Judging(w), first);
    var middle, second := Reaches(Last(first), w, e, v, POLICY, Begun, Linked);
    PathLength(Last(first), middle, second);
    var third := Commits(Last(second), w, e, v, POLICY, true);
    PathJoin(Last(first), middle, second, [Commit(w, true)], third);
    var back, rest := middle + [Commit(w, true)], second + third[1..];
    PathJoin(s, Judging(w), first, back, rest);
    steps, states := Judging(w) + back, first + rest[1..];
    BackedMoves(first, Judging(w), 1, states, steps, 1, e);
  }

  // ---- any number of requests ----

  function Name(k: nat): (name: string)
    ensures |name| == k
  {
    seq(k, _ => 'x')
  }

  function Names(n: nat): set<string> {
    set w | 0 <= w < n :: Name(w)
  }

  lemma {:induction false} NamesCount(n: nat)
    ensures |Names(n)| == n
  {
    hide Name;
    if n > 0 {
      NamesCount(n - 1);
      assert Names(n) == Names(n - 1) + {Name(n - 1)};
      assert Name(n - 1) !in Names(n - 1);
    }
  }

  const START := Init(map[GRANT := ROW])

  ghost predicate AllHaveRead(s: State, n: nat) {
    && (forall w :: SessionOf(s, w) == if 0 <= w < n then HasRead(Name(w)) else Idle)
    && s.db == Db(map[GRANT := ROW], map[], map[])
    && Challenges.Decide(s.challenges, CALL).Valid?
    && forall x :: x in s.used ==> |x| < n
  }

  lemma IssuedIsValid()
    ensures Challenges.Decide(Challenges.Step(map[], ISSUE), CALL).Valid?
  {
    Timestamps.StrLessIrreflexive(Timestamps.Render(NOW));
    hide Timestamps.StrLess, Timestamps.Render;
  }

  lemma OneMoreHasRead(s: State, t: State, n: nat)
    requires AllHaveRead(s, n) && SessionOf(t, n) == HasRead(Name(n)) && OthersStay(s, t, n)
    requires t.db == s.db && t.challenges == s.challenges && t.used == s.used + {Name(n)}
    ensures AllHaveRead(t, n + 1)
  {
    hide SessionOf, HasRead, Name, Challenges.Decide;
  }

  lemma NobodyHasRead() returns (states: seq<State>)
    ensures Path(START, [Issue(ISSUE)], states) && AllHaveRead(Last(states), 0)
  {
    IssuedIsValid();
    hide Challenges.Decide, Challenges.Step;
    states := [START, Next(START, Issue(ISSUE))];
  }

  lemma {:induction false} FirstPhase(n: nat) returns (steps: seq<Step>, states: seq<State>)
    ensures Path(START, steps, states) && AllHaveRead(Last(states), n)
  {
    hide HasRead, Challenges.Decide, Challenges.Step, SessionOf, Name, Reading;
    if n == 0 {
      steps := [Issue(ISSUE)];
      states := NobodyHasRead();
    } else {
      var front, first := FirstPhase(n - 1);
      hide Path;
      var back := Reads(Last(first), n - 1, Name(n - 1));
      OneMoreHasRead(Last(first), Last(back), n - 1);
      PathJoin(START, front, first, Reading(n - 1, Name(n - 1)), back);
      hide AllHaveRead;
      steps, states := front + Reading(n - 1, Name(n - 1)), first + back[1..];
    }
  }

  /** Of n readers the first j have committed. */
  ghost predicate SomeAreDone(s: State, n: nat, j: nat) {
    && (forall w :: if j <= w < n then SessionOf(s, w) == HasRead(Name(w)) else !SessionOf(s, w).InTx?)
    && Unlimited(s) && s.db.executions.Keys == Names(j)
    && (forall e :: e in s.db.executions ==> s.db.executions[e].result.Succeeded?)
    && forall x :: x in s.used ==> |x| < n + j
  }

  lemma NobodyHolds(s: State, n: nat, j: nat)
    requires SomeAreDone(s, n, j) && j < n
    ensures SessionOf(s, j) == HasRead(Name(j)) && Unlimited(s) && (forall id :: !Locked(s, id)) && Name(n + j) !in s.used
  {
    assert forall w :: w in s.sessions ==> s.sessions[w] == SessionOf(s, w);
    hide Name, Names, Unlimited;
  }

  lemma NamesGrow(j: nat)
    requires j > 0
    ensures Names(j) == Names(j - 1) + {Name(j - 1)}
  {
    hide Name;
  }

  lemma OneMoreIsDone(s: State, t: State, n: nat, j: nat)
    requires SomeAreDone(s, n, j) && j < n
    requires SessionOf(t, j).Done? && OthersStay(s, t, j) && Unlimited(t) && t.used <= s.used + {Name(n + j)}
    requires t.db.executions == s.db.executions[Name(j) := RowOf(POLICY, Some(Name(n + j)))]
    ensures SomeAreDone(t, n, j + 1)
  {
    hide SessionOf, HasRead, Name, Unlimited;
    assert Names(j + 1) == Names(j) + {Name(j)};
  }

  /** Steps that follow take no decision back. */
  lemma BackedStays(front: seq<Step>, first: seq<State>, back: seq<Step>, second: seq<State>, e: string)
    requires |first| == |front| + 1 && |second| == |back| + 1
    requires Backed(first, front, |front|, e, CHALLENGE)
    ensures Backed(first + second[1..], front + back, |front + back|, e, CHALLENGE)
  {
    hide BackedAt;
    var d :| 0 <= d < |front| && BackedAt(first, front, d, e, CHALLENGE);
    BackedMoves(first, front, d, first + second[1..], front + back, d, e);
  }

  lemma NowBacked(front: seq<Step>, first: seq<State>, back: seq<Step>, second: seq<State>, e: string)
    requires |first| == |front| + 1 && |second| == |back| + 1 && |back| > 1 && Last(first) == second[0]
    requires BackedAt(second, back, 1, e, CHALLENGE)
    ensures Backed(first + second[1..], front + back, |front + back|, e, CHALLENGE)
  {
    hide BackedAt;
    BackedMoves(second, back, 1, first + second[1..], front + back, |front| + 1, e);
  }

  ghost predicate AllBacked(states: seq<State>, steps: seq<Step>, j: nat)
    requires |states| == |steps| + 1
  {
    forall e :: e in Names(j) ==> Backed(states, steps, |steps|, e, CHALLENGE)
  }

  lemma OneMoreIsBacked(front: seq<Step>, first: seq<State>, back: seq<Step>, second: seq<State>, j: nat)
    requires |first| == |front| + 1 && |second| == |back| + 1 && |back| > 1 && Last(first) == second[0]
    requires AllBacked(first, front, j) && BackedAt(second, back, 1, Name(j), CHALLENGE)
    ensures AllBacked(first + second[1..], front + back, j + 1)
  {
    NowBacked(front, first, back, second, Name(j));
    forall x | x in Names(j) ensures Backed(first + second[1..], front + back, |front + back|, x, CHALLENGE) {
      BackedStays(front, first, back, second, x);
    }
    NamesGrow(j + 1);
    hide Backed, BackedAt, Name, Names;
  }

  lemma NobodyIsDone(n: nat) returns (steps: seq<Step>, states: seq<State>)
    ensures Path(START, steps, states) && |states| == |steps| + 1
    ensures SomeAreDone(Last(states), n, 0) && AllBacked(states, steps, 0)
  {
    hide Path, AllHaveRead, SomeAreDone, Backed;
    steps, states := FirstPhase(n);
    PathLength(START, steps, states);
    NoneIsDone(Last(states), n);
  }

  lemma NoneIsDone(s: State, n: nat)
    requires AllHaveRead(s, n)
    ensures SomeAreDone(s, n, 0)
  {
    assert Names(0) == {};
    hide Challenges.Decide, Name, Names, SessionOf;
  }

  lemma {:induction false} SecondPhase(n: nat, j: nat) returns (steps: seq<Step>, states: seq<State>)
    requires j <= n
    ensures Path(START, steps, states) && SomeAreDone(Last(states), n, j)
    ensures |states| == |steps| + 1 && AllBacked(states, steps, j)
  {
    hide *;
    if j == 0 {
      steps, states := NobodyIsDone(n);
    } else {
      var front, first := SecondPhase(n, j - 1);
      var v := Name(n + j - 1);
      NobodyHolds(Last(first), n, j - 1);
      var back, second := Finishes(Last(first), j - 1, Name(j - 1), v);
      PathJoin(START, front, first, back, second);
      OneMoreIsDone(Last(first), Last(second), n, j - 1);
      OneMoreIsBacked(front, first, back, second, j - 1);
      steps, states := front + back, first + second[1..];
    }
  }

  /** For every n, a run with n succeeded executions on one challenge. */
  lemma OneChallengeBacksMany(n: nat) returns (grants: GrantRepository.Grants, steps: seq<Step>, states: seq<State>)
    ensures Run(grants, steps, states)
    ensures |BackedBy(states, steps, |steps|, CHALLENGE)| == n
  {
    grants := map[GRANT := ROW];
    steps, states := SecondPhase(n, n);
    NamesCount(n);
    hide Name, Names, Backed, Unlimited, HasRead, Enabled, Next;
    assert BackedBy(states, steps, |steps|, CHALLENGE) == Names(n);
  }
}
