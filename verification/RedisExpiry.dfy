/** The expiry that the Redis script sets on its key: one second after the window it keeps. */
module RedisExpiry {
  import opened SlidingWindow

  /** A sorted set and the server time at which its key disappears. */
  datatype Expiring = Expiring(zset: seq<real>, deadline: real)

  /** What the server holds under k at the given server time. */
  function Alive<K>(keys: map<K, Expiring>, k: K, clock: real): seq<real> {
    if k in keys && clock < keys[k].deadline then keys[k].zset else []
  }

  datatype Server<K> = Server(keys: map<K, Expiring>, decisions: seq<Decision>)

  /** The script with its EXPIRE key window + 1, which only an admission renews. */
  function EvalExpiring<K>(s: Server<K>, c: Call<K>, clock: real, w: int): Server<K> {
    var (zset, d) := LuaStep(Alive(s.keys, c.bucket, clock), c.now, w, c.limit);
    var deadline := if d.Allowed? || c.bucket !in s.keys then clock + w as real + 1.0 else s.keys[c.bucket].deadline;
    Server(s.keys[c.bucket := Expiring(zset, deadline)], s.decisions + [d])
  }

  /** Call i reaches the server when its clock shows clocks[i]. */
  function RunExpiring<K>(w: int, calls: seq<Call<K>>, clocks: seq<real>): Server<K>
    requires |calls| == |clocks|
  {
    if calls == [] then Server(map[], [])
    else
      var n := |calls| - 1;
      EvalExpiring(RunExpiring(w, calls[..n], clocks[..n]), calls[n], clocks[n], w)
  }

  /** Between two calls the server's clock gains at most a second on the callers' clock. */
  predicate GainsAtMostASecond<K>(calls: seq<Call<K>>, clocks: seq<real>)
    requires |calls| == |clocks|
  {
    forall i, j :: 0 <= i <= j < |calls| ==> clocks[j] - clocks[i] <= calls[j].now - calls[i].now + 1.0
  }

  /** The deadline dates from an admission that is no older than any stamp in the set. */
  ghost predicate Dated<K(!new)>(e: Expiring, w: int, calls: seq<Call<K>>, clocks: seq<real>)
    requires |calls| == |clocks|
  {
    e.zset == [] || exists i :: 0 <= i < |calls| && e.deadline == clocks[i] + w as real + 1.0 && Within(e.zset, calls[i].now)
  }

  lemma {:induction false} RemoveAll(s: seq<real>, hi: real)
    requires Within(s, hi)
    ensures RemoveRange(s, 0.0, hi) == []
  {
    if s != [] { RemoveAll(s[..|s| - 1], hi); }
  }

  lemma RemoveShrinks(s: seq<real>, hi: real, last: real)
    requires Sorted(s) && Within(s, last)
    ensures Within(RemoveRange(s, 0.0, hi), last)
  {
    RemoveIsRecent(s, hi);
    RecentIsSorted(false, s, hi, last);
  }

  /** A key that has expired held nothing that the script would have kept. */
  lemma ExpiredIsEmpty<K(!new)>(e: Expiring, w: int, calls: seq<Call<K>>, clocks: seq<real>, n: nat)
    requires |calls| == |clocks| && n < |calls| && GainsAtMostASecond(calls, clocks)
    requires Dated(e, w, calls[..n], clocks[..n]) && e.deadline <= clocks[n]
    ensures RemoveRange(e.zset, 0.0, calls[n].now - w as real) == []
  {
    if e.zset != [] {
      var i :| 0 <= i < n && e.deadline == clocks[..n][i] + w as real + 1.0 && Within(e.zset, calls[..n][i].now);
      assert calls[i].now <= calls[n].now - w as real;
      RemoveAll(e.zset, calls[n].now - w as real);
    }
  }

  lemma EmptyStep(s: seq<real>, now: real, w: int, limit: int)
    requires RemoveRange(s, 0.0, now - w as real) == []
    ensures LuaStep(s, now, w, limit) == LuaStep([], now, w, limit)
  {
  }

  /** After a step the set holds what it held, or also the new stamp. */
  lemma StepIsDated(s: seq<real>, now: real, w: int, limit: int, last: real)
    requires Sorted(s) && Within(s, last) && last <= now && 0.0 <= now
    ensures var (z, d) := LuaStep(s, now, w, limit);
      Within(z, now) && (!d.Allowed? ==> Within(z, last))
  {
    RemoveShrinks(s, now - w as real, last);
    var live := RemoveRange(s, 0.0, now - w as real);
    assert Within(live, now);
    assert live != [] ==> live[|live| - 1] <= now;
    hide RemoveRange;
    assert Insert(live, now) == live + [now];
  }

  /** The server holds the sets of the script without expiry, with dated deadlines. */
  ghost predicate Holds<K(!new)>(s: Server<K>, plain: State<K>, w: int, calls: seq<Call<K>>, clocks: seq<real>)
    requires |calls| == |clocks|
  {
    && s.decisions == plain.decisions
    && s.keys.Keys == plain.buckets.Keys
    && forall k :: k in s.keys ==> s.keys[k].zset == plain.buckets[k] && Dated(s.keys[k], w, calls, clocks)
  }

  lemma DatedLater<K(!new)>(e: Expiring, w: int, calls: seq<Call<K>>, clocks: seq<real>, n: nat)
    requires |calls| == |clocks| && n <= |calls| && Dated(e, w, calls[..n], clocks[..n])
    ensures Dated(e, w, calls, clocks)
  {
    if e.zset != [] {
      var i :| 0 <= i < n && e.deadline == clocks[..n][i] + w as real + 1.0 && Within(e.zset, calls[..n][i].now);
      assert clocks[i] == clocks[..n][i] && calls[i] == calls[..n][i];
    }
  }

  /** Expiry changes no decision: with times that never go back, every run of the script with its EXPIRE
      decides as the script without it, as long as the server's clock gains at most a second on the
      callers' between any two calls.  The second that the script adds to the window is what allows it. */
  lemma {:induction false} ExpiryIsInvisible<K(!new)>(w: int, calls: seq<Call<K>>, clocks: seq<real>)
    requires |calls| == |clocks| && Timely(calls) && GainsAtMostASecond(calls, clocks)
    ensures Holds(RunExpiring(w, calls, clocks), Run(Lua, w, calls), w, calls, clocks)
  {
    if calls != [] {
      var n := |calls| - 1;
      var front, c := calls[..n], calls[n];
      assert GainsAtMostASecond(front, clocks[..n]);
      ExpiryIsInvisible(w, front, clocks[..n]);
      assert front != [] ==> front[n - 1].now == calls[n - 1].now <= c.now;
      RunsAgree(false, w, front, c.now);
      OneMore(w, calls, clocks);
    }
  }

  lemma SameStep<K(!new)>(s: Server<K>, plain: State<K>, w: int, calls: seq<Call<K>>, clocks: seq<real>)
    requires |calls| == |clocks| > 0 && GainsAtMostASecond(calls, clocks)
    requires var n := |calls| - 1; Holds(s, plain, w, calls[..n], clocks[..n])
    ensures var n := |calls| - 1; var c := calls[n];
      LuaStep(Alive(s.keys, c.bucket, clocks[n]), c.now, w, c.limit) == LuaStep(At(plain.buckets, c.bucket), c.now, w, c.limit)
  {
    var n := |calls| - 1;
    var c := calls[n];
    if c.bucket in s.keys && s.keys[c.bucket].deadline <= clocks[n] {
      ExpiredIsEmpty(s.keys[c.bucket], w, calls, clocks, n);
      EmptyStep(s.keys[c.bucket].zset, c.now, w, c.limit);
    }
  }

  lemma OneMore<K(!new)>(w: int, calls: seq<Call<K>>, clocks: seq<real>)
    requires |calls| == |clocks| > 0 && Timely(calls) && GainsAtMostASecond(calls, clocks)
    requires var n := |calls| - 1;
      && Holds(RunExpiring(w, calls[..n], clocks[..n]), Run(Lua, w, calls[..n]), w, calls[..n], clocks[..n])
      && Agree(false, At(Run(Lua, w, calls[..n]).buckets, calls[n].bucket), At(Run(Scan(false), w, calls[..n]).buckets, calls[n].bucket), calls[n].now, w)
    ensures Holds(RunExpiring(w, calls, clocks), Run(Lua, w, calls), w, calls, clocks)
  {
    var n := |calls| - 1;
    var c, s, plain := calls[n], RunExpiring(w, calls[..n], clocks[..n]), Run(Lua, w, calls[..n]);
    SameStep(s, plain, w, calls, clocks);
    NewDate(s, plain, w, calls, clocks);
    hide LuaStep, Agree, Within, Sorted;
    assert forall k :: k in s.keys ==> Dated(s.keys[k], w, calls[..n], clocks[..n]);
    hide Holds, Dated;
    OldDates(s, EvalExpiring(s, c, clocks[n], w), w, calls, clocks, c.bucket);
    HoldsAfter(w, calls, clocks);
  }

  /** The sets that the call did not touch stay dated. */
  lemma OldDates<K(!new)>(s: Server<K>, next: Server<K>, w: int, calls: seq<Call<K>>, clocks: seq<real>, bucket: K)
    requires |calls| == |clocks| > 0
    requires var n := |calls| - 1; forall k :: k in s.keys ==> Dated(s.keys[k], w, calls[..n], clocks[..n])
    requires forall k :: k in next.keys && k != bucket ==> k in s.keys && next.keys[k] == s.keys[k]
    requires bucket in next.keys && Dated(next.keys[bucket], w, calls, clocks)
    ensures forall k :: k in next.keys ==> Dated(next.keys[k], w, calls, clocks)
  {
    hide Dated;
    forall k | k in next.keys ensures Dated(next.keys[k], w, calls, clocks) {
      if k != bucket { DatedLater(s.keys[k], w, calls, clocks, |calls| - 1); }
    }
  }

  lemma HoldsAfter<K(!new)>(w: int, calls: seq<Call<K>>, clocks: seq<real>)
    requires |calls| == |clocks| > 0
    requires var n := |calls| - 1; var c := calls[n];
      var s, plain := RunExpiring(w, calls[..n], clocks[..n]), Run(Lua, w, calls[..n]);
      && Holds(s, plain, w, calls[..n], clocks[..n])
      && LuaStep(Alive(s.keys, c.bucket, clocks[n]), c.now, w, c.limit) == LuaStep(At(plain.buckets, c.bucket), c.now, w, c.limit)
      && forall k :: k in EvalExpiring(s, c, clocks[n], w).keys ==> Dated(EvalExpiring(s, c, clocks[n], w).keys[k], w, calls, clocks)
    ensures Holds(RunExpiring(w, calls, clocks), Run(Lua, w, calls), w, calls, clocks)
  {
    hide LuaStep, Dated, Alive;
  }

  /** The set that the call touched is dated: from now, or from when it was. */
  lemma NewDate<K(!new)>(s: Server<K>, plain: State<K>, w: int, calls: seq<Call<K>>, clocks: seq<real>)
    requires |calls| == |clocks| > 0 && Timely(calls)
    requires var n := |calls| - 1;
      && Holds(s, plain, w, calls[..n], clocks[..n])
      && Sorted(At(plain.buckets, calls[n].bucket)) && Within(At(plain.buckets, calls[n].bucket), calls[n].now)
    ensures var n := |calls| - 1; var c := calls[n];
      Dated(EvalExpiring(s, c, clocks[n], w).keys[c.bucket], w, calls, clocks)
  {
    var n := |calls| - 1;
    var c := calls[n];
    var alive := Alive(s.keys, c.bucket, clocks[n]);
    var (z, d) := LuaStep(alive, c.now, w, c.limit);
    StepIsDated(alive, c.now, w, c.limit, c.now);
    if !d.Allowed? && c.bucket in s.keys && z != [] {
      var e := s.keys[c.bucket];
      if alive != [] {
        var i :| 0 <= i < n && e.deadline == clocks[..n][i] + w as real + 1.0 && Within(e.zset, calls[..n][i].now);
        StepIsDated(alive, c.now, w, c.limit, calls[i].now);
        hide LuaStep;
        assert clocks[i] == clocks[..n][i];
      }
    }
  }

  /** The second is all that there is: whenever the clock gains more, a run of three calls on one key with
      the limit 1 lets two through, where the set without expiry lets one.  The refused call in between comes
      later on the server's clock, and does not renew the key. */
  lemma MoreThanASecond<K>(w: int, k: K, gain: real, pause: real) returns (calls: seq<Call<K>>, clocks: seq<real>)
    requires 1.0 < gain <= 1.0 + w as real && 0.0 < pause <= 1.0
    ensures |calls| == |clocks| == 3 && Timely(calls)
    ensures clocks[2] - clocks[0] == calls[2].now - calls[0].now + gain && clocks[1] == clocks[0] + pause
    ensures Run(Lua, w, calls).decisions == [Allowed, Denied(LuaHint(w, 0.0, 0.0)), Denied(LuaHint(w, calls[2].now, 0.0))]
    ensures RunExpiring(w, calls, clocks).decisions == [Allowed, Denied(LuaHint(w, 0.0, 0.0)), Allowed]
  {
    var late := w as real + 1.0 - gain;
    var c0, c1, c2 := Call(k, 0.0, 1), Call(k, 0.0, 1), Call(k, late, 1);
    calls, clocks := [c0, c1, c2], [0.0, pause, w as real + 1.0];
    PlainRun(w, k, late);
    ExpiringRun(w, k, late, pause);
  }

  /** One stamp at time zero is still in the window before w. */
  lemma OneStamp(w: int, now: real)
    requires w >= 0 && 0.0 <= now < w as real
    ensures LuaStep([], now, w, 1) == ([now], Allowed)
    ensures LuaStep([0.0], now, w, 1) == ([0.0], Denied(LuaHint(w, now, 0.0)))
  {
    var cut := now - w as real;
    assert RemoveRange([], 0.0, cut) == [] && Insert([], now) == [] + [now] == [now];
    assert [0.0][..0] == [] && RemoveRange([0.0], 0.0, cut) == [] + [0.0] == [0.0];
  }

  lemma PlainRun<K>(w: int, k: K, late: real)
    requires w >= 0 && 0.0 <= late < w as real
    ensures Run(Lua, w, [Call(k, 0.0, 1), Call(k, 0.0, 1), Call(k, late, 1)]).decisions ==
      [Allowed, Denied(LuaHint(w, 0.0, 0.0)), Denied(LuaHint(w, late, 0.0))]
  {
    OneStamp(w, 0.0);
    OneStamp(w, late);
    var c0, c2 := Call(k, 0.0, 1), Call(k, late, 1);
    hide LuaStep, LuaHint;
    assert [c0, c0, c2][..2] == [c0, c0] && [c0, c0][..1] == [c0] && [c0][..0] == [];
    assert Run(Lua, w, [c0]).buckets == map[k := [0.0]];
    assert Run(Lua, w, [c0, c0]).buckets == map[k := [0.0]];
  }

  lemma ExpiringRun<K>(w: int, k: K, late: real, pause: real)
    requires w >= 0 && 0.0 <= late < w as real && 0.0 < pause <= 1.0
    ensures RunExpiring(w, [Call(k, 0.0, 1), Call(k, 0.0, 1), Call(k, late, 1)], [0.0, pause, w as real + 1.0]).decisions ==
      [Allowed, Denied(LuaHint(w, 0.0, 0.0)), Allowed]
  {
    OneStamp(w, 0.0);
    OneStamp(w, late);
    var c0, c2 := Call(k, 0.0, 1), Call(k, late, 1);
    hide LuaStep, LuaHint;
    assert [c0, c0, c2][..2] == [c0, c0] && [c0, c0][..1] == [c0] && [c0][..0] == [];
    assert [0.0, pause, w as real + 1.0][..2] == [0.0, pause] && [0.0, pause][..1] == [0.0] && [0.0][..0] == [];
    assert RunExpiring(w, [c0], [0.0]).keys == map[k := Expiring([0.0], w as real + 1.0)];
    assert RunExpiring(w, [c0, c0], [0.0, pause]).keys == map[k := Expiring([0.0], w as real + 1.0)];
  }
}
