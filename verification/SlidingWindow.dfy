/** The two sliding-window limiters, deque and Redis script, and the scan of the whole admission
    history that both of them refine. */
module SlidingWindow {
  // ---- one bucket ----

  /** IndexError: a limit below one leaves the deque empty where its oldest stamp is read. */
  datatype Decision = Allowed | Denied(retryAfter: int) | IndexError

  function Clamp(w: int, retry: int): int {
    var upper := if w < retry then w else retry;
    if 1 < upper then upper else 1
  }

  function Ceil(x: real): int {
    -(-x).Floor
  }

  function DequeHint(w: int, now: real, oldest: real): int {
    Clamp(w, (w as real - (now - oldest)).Floor + 1)
  }

  function LuaHint(w: int, now: real, oldest: real): int {
    Clamp(w, Ceil(w as real - (now - oldest)) + 1)
  }

  /** The decision on the stamps still in the window; the deque's window is closed, the script's is
      open on the left. */
  function Judge(closed: bool, live: seq<real>, now: real, w: int, limit: int): Decision {
    if |live| < limit then Allowed
    else if live == [] then (if closed then IndexError else Denied(Clamp(w, w + 1)))
    else Denied(if closed then DequeHint(w, now, live[0]) else LuaHint(w, now, live[0]))
  }

  /** popleft while the oldest stamp lies before the cut */
  function Evict(dq: seq<real>, cut: real): seq<real> {
    if dq != [] && dq[0] < cut then Evict(dq[1..], cut) else dq
  }

  function DequeStep(dq: seq<real>, now: real, w: int, limit: int): (seq<real>, Decision) {
    var live := Evict(dq, now - w as real);
    var d := Judge(true, live, now, w, limit);
    (if d.Allowed? then live + [now] else live, d)
  }

  /** ZREMRANGEBYSCORE key lo hi */
  function RemoveRange(zset: seq<real>, lo: real, hi: real): seq<real> {
    if zset == [] then []
    else
      var last := zset[|zset| - 1];
      RemoveRange(zset[..|zset| - 1], lo, hi) + (if lo <= last <= hi then [] else [last])
  }

  /** ZADD key t: the set is kept in the order of its scores. */
  function Insert(zset: seq<real>, t: real): seq<real> {
    if zset == [] || zset[|zset| - 1] <= t then zset + [t]
    else Insert(zset[..|zset| - 1], t) + [zset[|zset| - 1]]
  }

  function LuaStep(zset: seq<real>, now: real, w: int, limit: int): (seq<real>, Decision) {
    var live := RemoveRange(zset, 0.0, now - w as real);
    var d := Judge(false, live, now, w, limit);
    (if d.Allowed? then Insert(live, now) else live, d)
  }

  // ---- the reference: a scan of every admission ever made ----

  predicate InWindow(closed: bool, t: real, now: real, w: int) {
    t <= now && if closed then t >= now - w as real else t > now - w as real
  }

  /** The admissions of a history that lie in the window ending now. */
  function Hits(closed: bool, history: seq<real>, now: real, w: int): (r: seq<real>)
    ensures |r| <= |history|
  {
    if history == [] then []
    else
      var last := history[|history| - 1];
      Hits(closed, history[..|history| - 1], now, w) + (if InWindow(closed, last, now, w) then [last] else [])
  }

  function ScanStep(closed: bool, history: seq<real>, now: real, w: int, limit: int): (seq<real>, Decision) {
    var d := Judge(closed, Hits(closed, history, now, w), now, w, limit);
    (if d.Allowed? then history + [now] else history, d)
  }

  // ---- runs over any number of buckets ----

  datatype Mode = Deque | Lua | Scan(closed: bool)

  function Step(mode: Mode, s: seq<real>, now: real, w: int, limit: int): (seq<real>, Decision) {
    match mode
    case Deque => DequeStep(s, now, w, limit)
    case Lua => LuaStep(s, now, w, limit)
    case Scan(closed) => ScanStep(closed, s, now, w, limit)
  }

  datatype Call<K> = Call(bucket: K, now: real, limit: int)

  function At<K>(buckets: map<K, seq<real>>, k: K): seq<real> {
    if k in buckets then buckets[k] else []
  }

  datatype State<K> = State(buckets: map<K, seq<real>>, decisions: seq<Decision>)

  function Run<K>(mode: Mode, w: int, calls: seq<Call<K>>): State<K> {
    if calls == [] then State(map[], [])
    else
      var before, c := Run(mode, w, calls[..|calls| - 1]), calls[|calls| - 1];
      var (s, d) := Step(mode, At(before.buckets, c.bucket), c.now, w, c.limit);
      State(before.buckets[c.bucket := s], before.decisions + [d])
  }

  /** Times never go back, and are not negative. */
  predicate Timely<K>(calls: seq<Call<K>>) {
    && (forall i :: 0 <= i < |calls| ==> 0.0 <= calls[i].now)
    && (forall i, j :: 0 <= i <= j < |calls| ==> calls[i].now <= calls[j].now)
  }

  // ---- eviction keeps exactly the live stamps ----

  predicate Sorted(s: seq<real>) {
    forall i, j :: 0 <= i <= j < |s| ==> s[i] <= s[j]
  }

  predicate Within(s: seq<real>, last: real) {
    forall i :: 0 <= i < |s| ==> 0.0 <= s[i] <= last
  }

  predicate Keeps(closed: bool, t: real, cut: real) {
    if closed then t >= cut else t > cut
  }

  function Recent(closed: bool, s: seq<real>, cut: real): seq<real> {
    if s == [] then []
    else
      var last := s[|s| - 1];
      Recent(closed, s[..|s| - 1], cut) + (if Keeps(closed, last, cut) then [last] else [])
  }

  lemma {:induction false} RecentTwice(closed: bool, s: seq<real>, c1: real, c2: real)
    requires c1 <= c2
    ensures Recent(closed, Recent(closed, s, c1), c2) == Recent(closed, s, c2)
  {
    if s != [] {
      var front, last := s[..|s| - 1], s[|s| - 1];
      RecentTwice(closed, front, c1, c2);
      var r := Recent(closed, front, c1);
      if Keeps(closed, last, c1) {
        assert (r + [last])[..|r|] == r;
      } else {
        assert r + [] == r;
      }
    }
  }

  lemma RecentAppend(closed: bool, s: seq<real>, t: real, cut: real)
    ensures Recent(closed, s + [t], cut) == Recent(closed, s, cut) + (if Keeps(closed, t, cut) then [t] else [])
  {
    assert (s + [t])[..|s|] == s;
  }

  lemma {:induction false} RecentAll(closed: bool, s: seq<real>, cut: real)
    requires forall i :: 0 <= i < |s| ==> Keeps(closed, s[i], cut)
    ensures Recent(closed, s, cut) == s
  {
    if s != [] {
      RecentAll(closed, s[..|s| - 1], cut);
      assert s == s[..|s| - 1] + [s[|s| - 1]];
    }
  }

  lemma {:induction false} RecentDropsFirst(s: seq<real>, cut: real)
    requires s != [] && s[0] < cut
    ensures Recent(true, s, cut) == Recent(true, s[1..], cut)
  {
    if |s| > 1 {
      RecentDropsFirst(s[..|s| - 1], cut);
      assert s[..|s| - 1][1..] == s[1..][..|s| - 2];
    }
  }

  lemma {:induction false} EvictIsRecent(s: seq<real>, cut: real)
    requires Sorted(s)
    ensures Evict(s, cut) == Recent(true, s, cut)
  {
    if s != [] && s[0] < cut {
      EvictIsRecent(s[1..], cut);
      RecentDropsFirst(s, cut);
    } else {
      RecentAll(true, s, cut);
    }
  }

  lemma {:induction false} RemoveIsRecent(s: seq<real>, cut: real)
    requires forall i :: 0 <= i < |s| ==> 0.0 <= s[i]
    ensures RemoveRange(s, 0.0, cut) == Recent(false, s, cut)
  {
    if s != [] { RemoveIsRecent(s[..|s| - 1], cut); }
  }

  lemma {:induction false} HitsIsRecent(closed: bool, s: seq<real>, now: real, w: int)
    requires forall i :: 0 <= i < |s| ==> s[i] <= now
    ensures Hits(closed, s, now, w) == Recent(closed, s, now - w as real)
  {
    if s != [] { HitsIsRecent(closed, s[..|s| - 1], now, w); }
  }

  lemma SortedFront(s: seq<real>, last: real)
    requires Sorted(s) && Within(s, last) && s != []
    ensures Sorted(s[..|s| - 1]) && Within(s[..|s| - 1], s[|s| - 1]) && 0.0 <= s[|s| - 1] <= last
  {
    var front := s[..|s| - 1];
    assert forall i :: 0 <= i < |front| ==> front[i] == s[i] && s[i] <= s[|s| - 1];
  }

  lemma SortedSnoc(s: seq<real>, t: real, last: real)
    requires Sorted(s) && Within(s, t) && 0.0 <= t <= last
    ensures Sorted(s + [t]) && Within(s + [t], last) && Within(s, last)
  {
  }

  lemma {:induction false} RecentIsSorted(closed: bool, s: seq<real>, cut: real, last: real)
    requires Sorted(s) && Within(s, last)
    ensures Sorted(Recent(closed, s, cut)) && Within(Recent(closed, s, cut), last)
  {
    if s != [] {
      var front, top := s[..|s| - 1], s[|s| - 1];
      SortedFront(s, last);
      RecentIsSorted(closed, front, cut, top);
      SortedSnoc(Recent(closed, front, cut), top, last);
      hide Sorted, Within, Keeps;
      assert Recent(closed, front, cut) + [] == Recent(closed, front, cut);
    }
  }

  // ---- refinement ----

  /** The stored stamps agree with the whole history on every window that ends at `last` or later. */
  ghost predicate Agree(closed: bool, stored: seq<real>, history: seq<real>, last: real, w: int) {
    && Sorted(stored) && Within(stored, last) && Within(history, last) && Sorted(history)
    && forall cut :: cut >= last - w as real ==> Recent(closed, stored, cut) == Recent(closed, history, cut)
  }

  function Stored(closed: bool): Mode {
    if closed then Deque else Lua
  }

  lemma LiveIsHits(closed: bool, stored: seq<real>, history: seq<real>, last: real, now: real, w: int)
    requires Agree(closed, stored, history, last, w) && last <= now
    ensures var live := Recent(closed, stored, now - w as real);
      && (if closed then Evict(stored, now - w as real) else RemoveRange(stored, 0.0, now - w as real)) == live
      && live == Hits(closed, history, now, w)
      && Sorted(live) && Within(live, last)
  {
    EvictIsRecent(stored, now - w as real);
    RemoveIsRecent(stored, now - w as real);
    HitsIsRecent(closed, history, now, w);
    RecentIsSorted(closed, stored, now - w as real, last);
  }

  lemma EvictedAgree(closed: bool, stored: seq<real>, history: seq<real>, last: real, now: real, w: int)
    requires Agree(closed, stored, history, last, w) && 0.0 <= last <= now
    ensures Agree(closed, Recent(closed, stored, now - w as real), history, now, w)
  {
    hide Recent;
    var cut0 := now - w as real;
    RecentIsSorted(closed, stored, cut0, last);
    forall cut | cut >= cut0
      ensures Recent(closed, Recent(closed, stored, cut0), cut) == Recent(closed, history, cut)
    {
      RecentTwice(closed, stored, cut0, cut);
    }
  }

  lemma AppendedAgree(closed: bool, stored: seq<real>, history: seq<real>, now: real, w: int)
    requires Agree(closed, stored, history, now, w) && 0.0 <= now
    ensures Agree(closed, stored + [now], history + [now], now, w)
  {
    hide Recent;
    forall cut | cut >= now - w as real
      ensures Recent(closed, stored + [now], cut) == Recent(closed, history + [now], cut)
    {
      RecentAppend(closed, stored, now, cut);
      RecentAppend(closed, history, now, cut);
    }
  }

  /** One call decides alike on the stored stamps and on the whole history, and keeps them in step. */
  lemma StepAgrees(closed: bool, stored: seq<real>, history: seq<real>, last: real, now: real, w: int, limit: int)
    requires Agree(closed, stored, history, last, w) && 0.0 <= last <= now
    ensures var a, b := Step(Stored(closed), stored, now, w, limit), Step(Scan(closed), history, now, w, limit);
      a.1 == b.1 && Agree(closed, a.0, b.0, now, w)
  {
    hide Judge;
    hide Evict;
    hide RemoveRange;
    LiveIsHits(closed, stored, history, last, now, w);
    EvictedAgree(closed, stored, history, last, now, w);
    AppendedAgree(closed, Recent(closed, stored, now - w as real), history, now, w);
    hide Agree;
    hide Recent;
    hide Hits;
  }

  lemma {:induction false} RunsAgree<K>(closed: bool, w: int, calls: seq<Call<K>>, last: real)
    requires Timely(calls) && 0.0 <= last && (calls != [] ==> calls[|calls| - 1].now <= last)
    ensures var a, b := Run(Stored(closed), w, calls), Run(Scan(closed), w, calls);
      a.decisions == b.decisions && forall k :: Agree(closed, At(a.buckets, k), At(b.buckets, k), last, w)
  {
    if calls != [] {
      var front, c := calls[..|calls| - 1], calls[|calls| - 1];
      assert front != [] ==> front[|front| - 1].now == calls[|front| - 1].now <= c.now;
      RunsAgree(closed, w, front, c.now);
      var a, b := Run(Stored(closed), w, front), Run(Scan(closed), w, front);
      var x, y := At(a.buckets, c.bucket), At(b.buckets, c.bucket);
      StepAgrees(closed, x, y, c.now, c.now, w, c.limit);
      hide Step;
      forall k ensures Agree(closed, At(Run(Stored(closed), w, calls).buckets, k), At(Run(Scan(closed), w, calls).buckets, k), last, w) {
        if k == c.bucket {
          Later(closed, Step(Stored(closed), x, c.now, w, c.limit).0, Step(Scan(closed), y, c.now, w, c.limit).0, c.now, last, w);
        } else {
          Later(closed, At(a.buckets, k), At(b.buckets, k), c.now, last, w);
        }
      }
    }
  }

  lemma Later(closed: bool, stored: seq<real>, history: seq<real>, last: real, next: real, w: int)
    requires Agree(closed, stored, history, last, w) && last <= next
    ensures Agree(closed, stored, history, next, w)
  {
  }

  /** With times that never go back, the deque limiter gives every call of every run the decision, and
      the retry hint, that a scan of the bucket's whole admission history over [now - w, now] gives. */
  lemma DequeRefinesScan<K>(w: int, calls: seq<Call<K>>)
    requires Timely(calls)
    ensures Run(Deque, w, calls).decisions == Run(Scan(true), w, calls).decisions
  {
    RunsAgree(true, w, calls, if calls == [] then 0.0 else calls[|calls| - 1].now);
  }

  /** The script does the same with the half-open window (now - w, now]. */
  lemma LuaRefinesScan<K>(w: int, calls: seq<Call<K>>)
    requires Timely(calls)
    ensures Run(Lua, w, calls).decisions == Run(Scan(false), w, calls).decisions
  {
    RunsAgree(false, w, calls, if calls == [] then 0.0 else calls[|calls| - 1].now);
  }

  // ---- how many admissions a window can hold ----

  lemma {:induction false} EarlierWindowHoldsAll(closed: bool, s: seq<real>, t: real, e: real, w: int)
    requires Within(s, t) && t <= e
    ensures |Hits(closed, s, e, w)| <= |Hits(closed, s, t, w)|
  {
    if s != [] { EarlierWindowHoldsAll(closed, s[..|s| - 1], t, e, w); }
  }

  lemma HitsAppend(closed: bool, s: seq<real>, t: real, e: real, w: int)
    ensures Hits(closed, s + [t], e, w) == Hits(closed, s, e, w) + (if InWindow(closed, t, e, w) then [t] else [])
  {
    assert (s + [t])[..|s|] == s;
  }

  lemma HistoryWithin<K>(closed: bool, w: int, calls: seq<Call<K>>, k: K, last: real)
    requires Timely(calls) && 0.0 <= last && (calls != [] ==> calls[|calls| - 1].now <= last)
    ensures Within(At(Run(Scan(closed), w, calls).buckets, k), last)
  {
    RunsAgree(closed, w, calls, last);
  }

  lemma HistoryStep<K>(closed: bool, w: int, calls: seq<Call<K>>, k: K, e: real)
    requires calls != []
    ensures var before, c := Run(Scan(closed), w, calls[..|calls| - 1]), calls[|calls| - 1];
      var run := Run(Scan(closed), w, calls);
      && |run.decisions| > 0
      && run.decisions == before.decisions + [run.decisions[|run.decisions| - 1]]
      && |Hits(closed, At(run.buckets, k), e, w)| == |Hits(closed, At(before.buckets, k), e, w)| +
           (if c.bucket == k && run.decisions[|run.decisions| - 1].Allowed? && InWindow(closed, c.now, e, w) then 1 else 0)
  {
    hide Judge;
    hide Hits;
    hide InWindow;
    var before, c := Run(Scan(closed), w, calls[..|calls| - 1]), calls[|calls| - 1];
    HitsAppend(closed, At(before.buckets, c.bucket), c.now, e, w);
  }

  lemma ScanAdmitsBelowLimit<K>(closed: bool, w: int, calls: seq<Call<K>>)
    requires calls != []
    ensures var c := calls[|calls| - 1];
      var ds := Run(Scan(closed), w, calls).decisions;
      && |ds| > 0
      && (ds[|ds| - 1].Allowed? <==>
            |Hits(closed, At(Run(Scan(closed), w, calls[..|calls| - 1]).buckets, c.bucket), c.now, w)| < c.limit)
  {
    hide Hits;
  }

  /** If every call of bucket k has a limit of at most `bound`, no window of length w, wherever it ends,
      holds more than `bound` of its admissions: [e - w, e] for the deque, (e - w, e] for the script. */
  lemma {:induction false} WindowBound<K>(closed: bool, w: int, calls: seq<Call<K>>, k: K, bound: nat, e: real)
    requires Timely(calls)
    requires forall i :: 0 <= i < |calls| && calls[i].bucket == k ==> calls[i].limit <= bound
    ensures |Hits(closed, At(Run(Scan(closed), w, calls).buckets, k), e, w)| <= bound
  {
    if calls != [] {
      var front, c := calls[..|calls| - 1], calls[|calls| - 1];
      WindowBound(closed, w, front, k, bound, e);
      HistoryStep(closed, w, calls, k, e);
      ScanAdmitsBelowLimit(closed, w, calls);
      hide Run, Hits;
      if c.bucket == k && c.now <= e {
        assert front != [] ==> front[|front| - 1].now == calls[|front| - 1].now <= c.now;
        HistoryWithin(closed, w, front, k, c.now);
        EarlierWindowHoldsAll(closed, At(Run(Scan(closed), w, front).buckets, k), c.now, e, w);
      }
    }
  }

  // ---- the same, said of the calls alone ----

  /** Among the first n calls, the admissions of bucket k that lie in the window ending at e. */
  function Admissions<K(==)>(closed: bool, calls: seq<Call<K>>, decisions: seq<Decision>, n: nat, k: K, e: real, w: int): nat
    requires n <= |calls| && n <= |decisions|
  {
    if n == 0 then 0
    else
      Admissions(closed, calls, decisions, n - 1, k, e, w) +
      (if calls[n - 1].bucket == k && decisions[n - 1].Allowed? && InWindow(closed, calls[n - 1].now, e, w) then 1 else 0)
  }

  lemma {:induction false} RunPrefix<K>(mode: Mode, w: int, calls: seq<Call<K>>, n: nat)
    requires n <= |calls|
    ensures |Run(mode, w, calls).decisions| == |calls|
    ensures Run(mode, w, calls[..n]).decisions == Run(mode, w, calls).decisions[..n]
    decreases |calls|
  {
    if n < |calls| {
      var front := calls[..|calls| - 1];
      RunPrefix(mode, w, front, n);
      assert front[..n] == calls[..n];
    } else {
      assert calls[..n] == calls;
      if calls != [] { RunPrefix(mode, w, calls[..|calls| - 1], 0); }
    }
  }

  lemma {:induction false} AdmissionsTake<K>(closed: bool, calls: seq<Call<K>>, ds: seq<Decision>, m: nat, n: nat, k: K, e: real, w: int)
    requires n <= m <= |calls| == |ds|
    ensures Admissions(closed, calls[..m], ds[..m], n, k, e, w) == Admissions(closed, calls, ds, n, k, e, w)
    decreases n
  {
    if n > 0 { AdmissionsTake(closed, calls, ds, m, n - 1, k, e, w); }
  }

  /** The history of a bucket is the list of its admitted calls. */
  lemma {:induction false} HitsAreAdmissions<K>(closed: bool, w: int, calls: seq<Call<K>>, k: K, e: real)
    ensures var run := Run(Scan(closed), w, calls);
      && |run.decisions| == |calls|
      && |Hits(closed, At(run.buckets, k), e, w)| == Admissions(closed, calls, run.decisions, |calls|, k, e, w)
  {
    if calls != [] {
      var n := |calls| - 1;
      hide Run, Hits, InWindow;
      HitsAreAdmissions(closed, w, calls[..n], k, e);
      HistoryStep(closed, w, calls, k, e);
      RunPrefix(Scan(closed), w, calls, n);
      var ds := Run(Scan(closed), w, calls).decisions;
      assert ds[..n] == Run(Scan(closed), w, calls[..n]).decisions;
      AdmissionsTake(closed, calls, ds, n, n, k, e, w);
    }
  }

  /** Call i is decided on the earlier admissions of its bucket in the window ending at its time. */
  lemma DecidedOn<K>(closed: bool, w: int, calls: seq<Call<K>>, i: nat) returns (live: seq<real>)
    requires Timely(calls) && i < |calls|
    ensures var ds := Run(Stored(closed), w, calls).decisions;
      && |ds| == |calls| && ds[i] == Judge(closed, live, calls[i].now, w, calls[i].limit)
      && |live| == Admissions(closed, calls, ds, i, calls[i].bucket, calls[i].now, w)
  {
    var front, c := calls[..i], calls[i];
    RunsAgree(closed, w, calls, calls[|calls| - 1].now);
    RunPrefix(Scan(closed), w, calls, i);
    RunPrefix(Scan(closed), w, calls, i + 1);
    HitsAreAdmissions(closed, w, front, c.bucket, c.now);
    var ds := Run(Scan(closed), w, calls).decisions;
    assert calls[..i + 1][..i] == front && calls[..i + 1][i] == c;
    assert ds[..i + 1][i] == ds[i];
    AdmissionsTake(closed, calls, ds, i, i, c.bucket, c.now, w);
    live := Hits(closed, At(Run(Scan(closed), w, front).buckets, c.bucket), c.now, w);
    hide Run, Hits, InWindow, Admissions, Judge;
  }

  /** Call i is admitted exactly when fewer than its limit of the earlier admissions of its bucket lie
      in the window ending at its time, however many stamps were evicted before. */
  lemma AdmitsIff<K>(closed: bool, w: int, calls: seq<Call<K>>, i: nat)
    requires Timely(calls) && i < |calls|
    ensures var ds := Run(Stored(closed), w, calls).decisions;
      && |ds| == |calls|
      && (ds[i].Allowed? <==> Admissions(closed, calls, ds, i, calls[i].bucket, calls[i].now, w) < calls[i].limit)
  {
    var live := DecidedOn(closed, w, calls, i);
    hide Run, Admissions;
  }

  /** The in-process limiter raises exactly when the limit is below one and no earlier admission is in the
      window; there the script denies, and hints at the whole window. */
  lemma RaisesIff<K>(closed: bool, w: int, calls: seq<Call<K>>, i: nat)
    requires Timely(calls) && i < |calls|
    ensures var ds := Run(Stored(closed), w, calls).decisions;
      && |ds| == |calls|
      && var bare := calls[i].limit < 1 && Admissions(closed, calls, ds, i, calls[i].bucket, calls[i].now, w) == 0;
      && (ds[i].IndexError? <==> closed && bare)
      && (!closed && bare ==> ds[i] == Denied(Clamp(w, w)))
  {
    var live := DecidedOn(closed, w, calls, i);
    hide Run, Admissions;
  }

  /** No window of length w holds more admissions of a bucket than the largest limit used on it. */
  lemma AtMostLimit<K>(closed: bool, w: int, calls: seq<Call<K>>, k: K, bound: nat, e: real)
    requires Timely(calls)
    requires forall i :: 0 <= i < |calls| && calls[i].bucket == k ==> calls[i].limit <= bound
    ensures var ds := Run(Stored(closed), w, calls).decisions;
      |ds| == |calls| && Admissions(closed, calls, ds, |calls|, k, e, w) <= bound
  {
    RunsAgree(closed, w, calls, if calls == [] then 0.0 else calls[|calls| - 1].now);
    HitsAreAdmissions(closed, w, calls, k, e);
    WindowBound(closed, w, calls, k, bound, e);
  }

  // ---- the two windows differ only at the boundary ----

  /** Number of stamps equal to t. */
  function Exactly(s: seq<real>, t: real): nat {
    if s == [] then 0 else Exactly(s[..|s| - 1], t) + (if s[|s| - 1] == t then 1 else 0)
  }

  lemma {:induction false} ClosedMinusOpen(s: seq<real>, now: real, w: nat)
    ensures |Hits(true, s, now, w)| == |Hits(false, s, now, w)| + Exactly(s, now - w as real)
  {
    if s != [] { ClosedMinusOpen(s[..|s| - 1], now, w); }
  }

  /** On the same history one limiter admits and the other does not exactly when stamps that are
      exactly w old make the difference; then the script admits and the deque does not. */
  lemma DifferOnlyAtBoundary(history: seq<real>, now: real, w: nat, limit: int)
    ensures var deque, lua := ScanStep(true, history, now, w, limit).1, ScanStep(false, history, now, w, limit).1;
      var open := |Hits(false, history, now, w)|;
      && (deque.Allowed? != lua.Allowed? <==> open < limit <= open + Exactly(history, now - w as real))
      && (deque.Allowed? ==> lua.Allowed?)
  {
    ClosedMinusOpen(history, now, w);
  }

  // ---- what waiting for the hint buys ----

  /** Waiting the script's hint always frees the oldest slot, and no more than one second of it is waste:
      two seconds less would not do. */
  lemma LuaHintFrees(w: int, now: real, oldest: real, r: nat)
    requires oldest <= now
    ensures !InWindow(false, oldest, now + LuaHint(w, now, oldest) as real, w)
    ensures 1 <= LuaHint(w, now, oldest) && (w >= 1 ==> LuaHint(w, now, oldest) <= w)
    ensures r <= LuaHint(w, now, oldest) - 2 ==> InWindow(false, oldest, now + r as real, w)
  {
    var x := w as real - (now - oldest);
    var n := (-x).Floor;
    assert n as real <= -x < n as real + 1.0;
    assert Ceil(x) == -n && x <= Ceil(x) as real < x + 1.0;
    if r <= LuaHint(w, now, oldest) - 2 {
      assert r <= Ceil(x) - 1;
    }
  }

  /** Waiting the in-process hint frees the oldest slot unless that stamp equals the current time, and no
      smaller number of seconds does. */
  lemma DequeHintFreesIff(w: int, now: real, oldest: real, r: nat)
    requires w >= 1 && InWindow(true, oldest, now, w)
    ensures InWindow(true, oldest, now + DequeHint(w, now, oldest) as real, w) <==> oldest == now
    ensures 1 <= DequeHint(w, now, oldest) <= w
    ensures r < DequeHint(w, now, oldest) ==> InWindow(true, oldest, now + r as real, w)
  {
    var x := w as real - (now - oldest);
    var n := x.Floor;
    assert n as real <= x < n as real + 1.0;
    if oldest == now {
      assert n == w;
    } else {
      assert x < w as real;
      assert n < w;
    }
    if r < DequeHint(w, now, oldest) {
      assert r <= n;
    }
  }
}
