/** The limiters as objects: the in-process one over a dictionary of deques, and the Redis-backed one
    that falls back to it whenever the server fails. */
module RateLimiter {
  import opened Wrappers
  import opened SlidingWindow

  datatype Config = Config(authLimit: int, apiLimit: int, window: int)

  datatype Request = Request(ip: string, group: string, now: real, tier: string, override: Option<int>)

  /** None is unlimited; an unknown tier counts as free. */
  function LimitForTier(tier: string, override: Option<int>): Option<int> {
    if override.Some? then override
    else if tier == "enterprise" then None
    else if tier == "pro" then Some(1000)
    else Some(100)
  }

  function ResolveLimit(cfg: Config, r: Request): Option<int> {
    if r.group == "auth" then Some(cfg.authLimit)
    else
      var tierLimit := LimitForTier(r.tier, r.override);
      if r.group == "exercise" || tierLimit.None? then tierLimit
      else Some(if tierLimit.value < cfg.apiLimit then tierLimit.value else cfg.apiLimit)
  }

  /** Which limit applies: the configured one for "auth"; for "exercise" the override or else the number of the
      tier, none for enterprise; for every other group the smaller of that and the configured limit. */
  lemma LimitMeans(cfg: Config, r: Request)
    ensures r.group == "auth" ==> ResolveLimit(cfg, r) == Some(cfg.authLimit)
    ensures r.group != "auth" ==> (ResolveLimit(cfg, r).None? <==> r.override.None? && r.tier == "enterprise")
    ensures r.group != "auth" && ResolveLimit(cfg, r).Some? ==>
      var limit, own := ResolveLimit(cfg, r).value, if r.override.Some? then r.override.value else if r.tier == "pro" then 1000 else 100;
      if r.group == "exercise" then limit == own
      else limit <= own && limit <= cfg.apiLimit && (limit == own || limit == cfg.apiLimit)
  {
  }

  function LocalKey(r: Request): (string, string) {
    (r.ip, r.group)
  }

  /** f"rl:{client_ip}:{group}:{plan_tier}" */
  function RedisKey(r: Request): string {
    "rl:" + r.ip + ":" + r.group + ":" + r.tier
  }

  // ---- the in-process limiter ----

  class RateLimiter {
    const cfg: Config
    var storage: map<(string, string), seq<real>>

    constructor (cfg: Config)
      ensures this.cfg == cfg && storage == map[]
    {
      this.cfg := cfg;
      storage := map[];
    }

    method Check(r: Request) returns (d: Decision)
      modifies this
      ensures ResolveLimit(cfg, r).None? ==> d == Allowed && storage == old(storage)
      ensures ResolveLimit(cfg, r).Some? ==>
        var (s, e) := DequeStep(At(old(storage), LocalKey(r)), r.now, cfg.window, ResolveLimit(cfg, r).value);
        d == e && storage == old(storage)[LocalKey(r) := s]
      ensures storage.Keys <= old(storage).Keys + {(r.ip, r.group)}
      ensures forall k :: k in old(storage) && k != (r.ip, r.group) ==> k in storage && storage[k] == old(storage)[k]
    {
      var limit := ResolveLimit(cfg, r);
      if limit.None? {
        return Allowed;
      }
      var key := LocalKey(r);
      if key !in storage {
        storage := storage[key := []];
      }
      var dq := storage[key];
      while dq != [] && dq[0] < r.now - cfg.window as real
        invariant Evict(dq, r.now - cfg.window as real) == Evict(At(old(storage), key), r.now - cfg.window as real)
        decreases |dq|
      {
        dq := dq[1..];
      }
      if |dq| >= limit.value {
        storage := storage[key := dq];
        if dq == [] {
          return IndexError;
        }
        return Denied(DequeHint(cfg.window, r.now, dq[0]));
      }
      dq := dq + [r.now];
      storage := storage[key := dq];
      d := Allowed;
    }
  }

  // ---- the server side of the script ----

  class RedisServer {
    var zsets: map<string, seq<real>>

    constructor ()
      ensures zsets == map[]
    {
      zsets := map[];
    }

    method Eval(key: string, now: real, window: int, limit: int) returns (allowed: bool, retry: int)
      modifies this
      ensures var (s, e) := LuaStep(At(old(zsets), key), now, window, limit);
        zsets == old(zsets)[key := s] && (allowed ==> retry == 0) && e == if allowed then Allowed else Denied(Clamp(window, retry))
    {
      var zset := RemoveRange(At(zsets, key), 0.0, now - window as real);
      zsets := zsets[key := zset];
      var count := |zset|;
      if count < limit {
        zsets := zsets[key := Insert(zset, now)];
        allowed, retry := true, 0;
      } else {
        allowed, retry := false, window + 1;
        if zset != [] {
          retry := Ceil(window as real - (now - zset[0])) + 1;
        }
      }
    }
  }

  // ---- the limiter that falls back ----

  /** What happens to the round trip: the request is lost, or the reply is lost after the effect. */
  datatype Fault = NoFault | LostRequest | LostReply

  datatype Event = Check(request: Request, fault: Fault) | Probe(up: bool)

  datatype World = World(connected: bool, zsets: map<string, seq<real>>, local: map<(string, string), seq<real>>)

  function LocalCheck(cfg: Config, s: World, r: Request): (World, Decision) {
    if ResolveLimit(cfg, r).None? then (s, Allowed)
    else
      var (dq, d) := DequeStep(At(s.local, LocalKey(r)), r.now, cfg.window, ResolveLimit(cfg, r).value);
      (s.(local := s.local[LocalKey(r) := dq]), d)
  }

  /** An unlimited request never reaches the server, so it meets no fault. */
  function CheckStep(cfg: Config, s: World, r: Request, fault: Fault): (World, Decision) {
    if !s.connected || ResolveLimit(cfg, r).None? then LocalCheck(cfg, s, r)
    else
      var (zset, d) := LuaStep(At(s.zsets, RedisKey(r)), r.now, cfg.window, ResolveLimit(cfg, r).value);
      var evaluated := s.(zsets := s.zsets[RedisKey(r) := zset]);
      match fault
      case NoFault => (evaluated, d)
      case LostRequest => LocalCheck(cfg, s.(connected := false), r)
      case LostReply => LocalCheck(cfg, evaluated.(connected := false), r)
  }

  class RedisRateLimiter {
    const fallback: RateLimiter
    const server: RedisServer
    const configured: bool
    var connected: bool

    constructor (cfg: Config, server: RedisServer, configured: bool, up: bool)
      ensures fresh(fallback) && fallback.cfg == cfg && fallback.storage == map[]
      ensures this.server == server && this.configured == configured && connected == (configured && up)
    {
      fallback := new RateLimiter(cfg);
      this.server := server;
      this.configured := configured;
      connected := configured && up;
    }

    ghost function Abs(): World
      reads this, fallback, server
    {
      World(connected, server.zsets, fallback.storage)
    }

    method Check(r: Request, fault: Fault) returns (d: Decision)
      modifies this, fallback, server
      ensures (Abs(), d) == CheckStep(fallback.cfg, old(Abs()), r, fault)
      ensures connected <==> old(connected) && (fault == NoFault || ResolveLimit(fallback.cfg, r).None?)
      ensures forall k :: k in old(server.zsets) && k != "rl:" + r.ip + ":" + r.group + ":" + r.tier ==>
        k in server.zsets && server.zsets[k] == old(server.zsets)[k]
      ensures fault == LostRequest || !old(connected) ==> server.zsets == old(server.zsets)
    {
      if connected {
        var limit := ResolveLimit(fallback.cfg, r);
        if limit.None? {
          return Allowed;
        }
        if fault != LostRequest {
          var allowed, retry := server.Eval(RedisKey(r), r.now, fallback.cfg.window, limit.value);
          if fault == NoFault {
            return if allowed then Allowed else Denied(Clamp(fallback.cfg.window, retry));
          }
        }
        connected := false;
      }
      d := fallback.Check(r);
    }

    /** A failed ping drops the connection; without one a fresh connection is tried first. */
    method LiveRedisHealth(up: bool) returns (status: string)
      modifies this
      ensures connected == (if configured then up else old(connected))
      ensures status == if !configured then "disabled" else if up then "ok" else "unavailable"
    {
      if !configured {
        return "disabled";
      }
      if !connected {
        connected := up;
        if !connected {
          return "unavailable";
        }
      }
      if up {
        return "ok";
      }
      connected := false;
      return "unavailable";
    }
  }

  // ---- runs of the configured limiter ----

  /** The state, the calls each limiter has decided, and the requests let through. */
  datatype Trace = Trace(world: World, redisCalls: seq<Call<string>>, localCalls: seq<Call<(string, string)>>, admitted: seq<Request>)

  function Advance(cfg: Config, t: Trace, e: Event): Trace {
    match e
    case Probe(up) => t.(world := t.world.(connected := up))
    case Check(r, fault) =>
      var (next, d) := CheckStep(cfg, t.world, r, fault);
      var limit := ResolveLimit(cfg, r);
      Trace(next,
            if limit.Some? && t.world.connected && fault != LostRequest
            then t.redisCalls + [Call(RedisKey(r), r.now, limit.value)] else t.redisCalls,
            if limit.Some? && (!t.world.connected || fault != NoFault)
            then t.localCalls + [Call(LocalKey(r), r.now, limit.value)] else t.localCalls,
            if d.Allowed? then t.admitted + [r] else t.admitted)
  }

  function RunEvents(cfg: Config, up: bool, events: seq<Event>): Trace {
    if events == [] then Trace(World(up, map[], map[]), [], [], [])
    else Advance(cfg, RunEvents(cfg, up, events[..|events| - 1]), events[|events| - 1])
  }

  /** Times never go back, and are not negative. */
  predicate InTime(events: seq<Event>) {
    && (forall i :: 0 <= i < |events| && events[i].Check? ==> 0.0 <= events[i].request.now)
    && (forall i, j :: 0 <= i <= j < |events| && events[i].Check? && events[j].Check?
          ==> events[i].request.now <= events[j].request.now)
  }

  /** After a probe the limiter is connected exactly when the server answered; a limited request is then decided
      by the server alone, or else by the fallback alone. */
  lemma ProbeDecides(cfg: Config, up: bool, events: seq<Event>, answers: bool, r: Request)
    requires ResolveLimit(cfg, r).Some?
    ensures var t := RunEvents(cfg, up, events);
      var u := RunEvents(cfg, up, events + [Probe(answers)]);
      var v := RunEvents(cfg, up, events + [Probe(answers)] + [Check(r, NoFault)]);
      && u == t.(world := t.world.(connected := answers)) && v.world.connected == answers
      && (answers ==> v.redisCalls == t.redisCalls + [Call(RedisKey(r), r.now, ResolveLimit(cfg, r).value)] && v.localCalls == t.localCalls)
      && (!answers ==> v.localCalls == t.localCalls + [Call(LocalKey(r), r.now, ResolveLimit(cfg, r).value)] && v.redisCalls == t.redisCalls)
  {
    RunEventsAppend(cfg, up, events, Probe(answers));
    RunEventsAppend(cfg, up, events + [Probe(answers)], Check(r, NoFault));
    hide RunEvents, LuaStep, DequeStep, ResolveLimit, RedisKey;
  }

  /** The requests with the keys of r that were let through in (end - window, end]. */
  function Admitted(rs: seq<Request>, r: Request, end: real, window: int): nat {
    if rs == [] then 0
    else
      var last := rs[|rs| - 1];
      Admitted(rs[..|rs| - 1], r, end, window) +
      (if LocalKey(last) == LocalKey(r) && RedisKey(last) == RedisKey(r) && InWindow(false, last.now, end, window) then 1 else 0)
  }

  // ---- one client of the in-process limiter ----

  /** Requests that reach the in-process limiter, in order. */
  function ChecksOf(rs: seq<Request>): (events: seq<Event>)
    ensures |events| == |rs| && forall i :: 0 <= i < |rs| ==> events[i] == Check(rs[i], NoFault)
  {
    if rs == [] then [] else ChecksOf(rs[..|rs| - 1]) + [Check(rs[|rs| - 1], NoFault)]
  }

  predicate FromClient(r: Request, ip: string, group: string) {
    r.ip == ip && r.group == group
  }

  /** The requests of one client in one group that were let through in [end - window, end]. */
  function AdmittedFrom(rs: seq<Request>, ip: string, group: string, end: real, window: int): nat {
    if rs == [] then 0
    else
      var last := rs[|rs| - 1];
      AdmittedFrom(rs[..|rs| - 1], ip, group, end, window) +
      (if FromClient(last, ip, group) && end - window as real <= last.now <= end then 1 else 0)
  }

  lemma AdmittedFromAppend(rs: seq<Request>, q: Request, ip: string, group: string, end: real, window: int)
    ensures AdmittedFrom(rs + [q], ip, group, end, window) ==
      AdmittedFrom(rs, ip, group, end, window) + (if FromClient(q, ip, group) && end - window as real <= q.now <= end then 1 else 0)
  {
    assert (rs + [q])[..|rs|] == rs;
  }

  /** Number of admissions of a bucket in [e - w, e] that the calls of the deque made. */
  function DequeLoad<K(==)>(w: int, calls: seq<Call<K>>, k: K, e: real): nat {
    RunPrefix(Deque, w, calls, 0);
    Admissions(true, calls, Run(Deque, w, calls).decisions, |calls|, k, e, w)
  }

  lemma DequeLoadAppend<K>(w: int, calls: seq<Call<K>>, c: Call<K>, k: K, e: real)
    ensures var (x, d) := DequeStep(At(Run(Deque, w, calls).buckets, c.bucket), c.now, w, c.limit);
      DequeLoad(w, calls + [c], k, e) ==
      DequeLoad(w, calls, k, e) + (if c.bucket == k && d.Allowed? && InWindow(true, c.now, e, w) then 1 else 0)
  {
    RunPrefix(Deque, w, calls, 0);
    RunAppend(Deque, w, calls, c);
    var ds, d := Run(Deque, w, calls).decisions, Step(Deque, At(Run(Deque, w, calls).buckets, c.bucket), c.now, w, c.limit).1;
    hide Run, DequeStep, InWindow;
    AdmissionsTake(true, calls + [c], ds + [d], |calls|, |calls|, k, e, w);
    assert (calls + [c])[..|calls|] == calls && (ds + [d])[..|ds|] == ds;
  }

  /** The stamps are those of a run of the calls, and what was let through is what they admitted. */
  ghost predicate LocalTied(cfg: Config, t: Trace, ip: string, group: string, end: real) {
    && !t.world.connected && t.world.local == Run(Deque, cfg.window, t.localCalls).buckets
    && AdmittedFrom(t.admitted, ip, group, end, cfg.window) <= DequeLoad(cfg.window, t.localCalls, (ip, group), end)
  }

  ghost predicate ClientBounded(cfg: Config, r: Request, ip: string, group: string, bound: nat) {
    FromClient(r, ip, group) ==> ResolveLimit(cfg, r).Some? && ResolveLimit(cfg, r).value <= bound
  }

  lemma LocalAdvance(cfg: Config, t: Trace, q: Request, ip: string, group: string, bound: nat, end: real)
    requires LocalTied(cfg, t, ip, group, end) && ClientBounded(cfg, q, ip, group, bound)
    ensures LocalTied(cfg, Advance(cfg, t, Check(q, NoFault)), ip, group, end)
  {
    hide Run, DequeStep, LuaStep, ResolveLimit, RedisKey, AdmittedFrom, DequeLoad;
    AdmittedFromAppend(t.admitted, q, ip, group, end, cfg.window);
    if ResolveLimit(cfg, q).Some? {
      var lc := Call(LocalKey(q), q.now, ResolveLimit(cfg, q).value);
      RunAppend(Deque, cfg.window, t.localCalls, lc);
      DequeLoadAppend(cfg.window, t.localCalls, lc, (ip, group), end);
    }
  }

  lemma LocalOrderly(cfg: Config, t: Trace, q: Request, ip: string, group: string, bound: nat, last: real)
    requires !t.world.connected && Orderly(t.localCalls, (ip, group), bound, last) && 0.0 <= last <= q.now
    requires ClientBounded(cfg, q, ip, group, bound)
    ensures Orderly(Advance(cfg, t, Check(q, NoFault)).localCalls, (ip, group), bound, q.now)
  {
    hide ResolveLimit, RedisKey, CheckStep;
    if ResolveLimit(cfg, q).Some? {
      OrderlyAppend(t.localCalls, Call(LocalKey(q), q.now, ResolveLimit(cfg, q).value), (ip, group), bound, last);
    }
  }

  /** Times never go back, and are not negative. */
  predicate InSequence(rs: seq<Request>) {
    && (forall i :: 0 <= i < |rs| ==> 0.0 <= rs[i].now)
    && (forall i, j :: 0 <= i <= j < |rs| ==> rs[i].now <= rs[j].now)
  }

  function LastNow(rs: seq<Request>): real {
    if rs == [] then 0.0 else rs[|rs| - 1].now
  }

  lemma {:induction false} LocalRunKeeps(cfg: Config, rs: seq<Request>, ip: string, group: string, bound: nat, end: real)
    requires InSequence(rs) && forall i :: 0 <= i < |rs| ==> ClientBounded(cfg, rs[i], ip, group, bound)
    ensures var t := RunEvents(cfg, false, ChecksOf(rs));
      LocalTied(cfg, t, ip, group, end) && Orderly(t.localCalls, (ip, group), bound, LastNow(rs))
  {
    hide Advance, ClientBounded;
    if rs != [] {
      var front, q := rs[..|rs| - 1], rs[|rs| - 1];
      LocalRunKeeps(cfg, front, ip, group, bound, end);
      var t := RunEvents(cfg, false, ChecksOf(front));
      RunEventsAppend(cfg, false, ChecksOf(front), Check(q, NoFault));
      LocalAdvance(cfg, t, q, ip, group, bound, end);
      LocalOrderly(cfg, t, q, ip, group, bound, LastNow(front));
      hide LocalTied, Orderly, RunEvents;
    } else {
      NothingRun(cfg, ip, group, bound, end);
    }
  }

  lemma NothingRun(cfg: Config, ip: string, group: string, bound: nat, end: real)
    ensures var t := RunEvents(cfg, false, []);
      LocalTied(cfg, t, ip, group, end) && Orderly(t.localCalls, (ip, group), bound, 0.0)
  {
  }

  lemma ClientBound(cfg: Config, rs: seq<Request>, ip: string, group: string, bound: nat, end: real)
    requires InSequence(rs) && forall i :: 0 <= i < |rs| ==> ClientBounded(cfg, rs[i], ip, group, bound)
    ensures AdmittedFrom(RunEvents(cfg, false, ChecksOf(rs)).admitted, ip, group, end, cfg.window) <= bound
  {
    LocalRunKeeps(cfg, rs, ip, group, bound, end);
    var t := RunEvents(cfg, false, ChecksOf(rs));
    AtMostLimit(true, cfg.window, t.localCalls, (ip, group), bound, end);
    hide AdmittedFrom, RunEvents, Admissions, Run, ClientBounded;
  }

  /** Whatever else is requested, the requests of one client that are let through in any closed window are at
      most `authLimit` in the group "auth", and in any group but "auth" and "exercise" at most `apiLimit`, if
      none of them is of the enterprise tier without an override; in "exercise" they are at most the override
      that they carry, and at most 100 if they carry none and are neither pro nor enterprise. */
  lemma ClientLimits(cfg: Config, rs: seq<Request>, ip: string, group: string, override: nat, end: real)
    requires InSequence(rs) && cfg.authLimit >= 0 && cfg.apiLimit >= 0
    ensures var n := AdmittedFrom(RunEvents(cfg, false, ChecksOf(rs)).admitted, ip, group, end, cfg.window);
      && (group == "auth" ==> n <= cfg.authLimit)
      && (group != "auth" && group != "exercise"
          && (forall i :: 0 <= i < |rs| && FromClient(rs[i], ip, group) ==> !(rs[i].tier == "enterprise" && rs[i].override.None?))
          ==> n <= cfg.apiLimit)
      && (group == "exercise" && (forall i :: 0 <= i < |rs| && FromClient(rs[i], ip, group) ==> rs[i].override == Some(override))
          ==> n <= override)
      && (group == "exercise"
          && (forall i :: 0 <= i < |rs| && FromClient(rs[i], ip, group) ==>
                rs[i].override.None? && rs[i].tier != "pro" && rs[i].tier != "enterprise")
          ==> n <= 100)
  {
    hide RunEvents, AdmittedFrom, InSequence;
    var all := forall i :: 0 <= i < |rs| && FromClient(rs[i], ip, group) ==> !(rs[i].tier == "enterprise" && rs[i].override.None?);
    if group == "auth" {
      ClientBound(cfg, rs, ip, group, cfg.authLimit, end);
    } else if group != "exercise" && all {
      ClientBound(cfg, rs, ip, group, cfg.apiLimit, end);
    } else if group == "exercise" && forall i :: 0 <= i < |rs| && FromClient(rs[i], ip, group) ==> rs[i].override == Some(override) {
      ClientBound(cfg, rs, ip, group, override, end);
    }
    if group == "exercise" && forall i :: 0 <= i < |rs| && FromClient(rs[i], ip, group) ==>
      rs[i].override.None? && rs[i].tier != "pro" && rs[i].tier != "enterprise" {
      ClientBound(cfg, rs, ip, group, 100, end);
    }
  }

  // ---- at most twice the limit, whatever fails ----

  lemma RunAppend<K>(mode: Mode, w: int, calls: seq<Call<K>>, c: Call<K>)
    ensures var s := Run(mode, w, calls);
      var (x, d) := Step(mode, At(s.buckets, c.bucket), c.now, w, c.limit);
      Run(mode, w, calls + [c]) == State(s.buckets[c.bucket := x], s.decisions + [d])
  {
    assert (calls + [c])[..|calls|] == calls;
  }

  lemma AdmissionsAppend<K>(calls: seq<Call<K>>, ds: seq<Decision>, c: Call<K>, d: Decision, k: K, e: real, w: int)
    requires |calls| == |ds|
    ensures Admissions(false, calls + [c], ds + [d], |calls| + 1, k, e, w) ==
      Admissions(false, calls, ds, |calls|, k, e, w) + (if c.bucket == k && d.Allowed? && InWindow(false, c.now, e, w) then 1 else 0)
  {
    AdmissionsTake(false, calls + [c], ds + [d], |calls|, |calls|, k, e, w);
    assert (calls + [c])[..|calls|] == calls && (ds + [d])[..|ds|] == ds;
  }

  /** Number of admissions of bucket k in (e - w, e] that the calls of one limiter made. */
  function Load<K(==)>(mode: Mode, w: int, calls: seq<Call<K>>, k: K, e: real): nat {
    RunPrefix(mode, w, calls, 0);
    Admissions(false, calls, Run(mode, w, calls).decisions, |calls|, k, e, w)
  }

  lemma LoadAppend<K>(mode: Mode, w: int, calls: seq<Call<K>>, c: Call<K>, k: K, e: real)
    ensures var (x, d) := Step(mode, At(Run(mode, w, calls).buckets, c.bucket), c.now, w, c.limit);
      Load(mode, w, calls + [c], k, e) ==
      Load(mode, w, calls, k, e) + (if c.bucket == k && d.Allowed? && InWindow(false, c.now, e, w) then 1 else 0)
  {
    hide Step;
    hide InWindow;
    RunPrefix(mode, w, calls, 0);
    RunAppend(mode, w, calls, c);
    hide Run;
    var d := Step(mode, At(Run(mode, w, calls).buckets, c.bucket), c.now, w, c.limit).1;
    AdmissionsAppend(calls, Run(mode, w, calls).decisions, c, d, k, e, w);
  }

  /** Each limiter's stamps are those of a run of its own calls. */
  ghost predicate Tied(cfg: Config, t: Trace) {
    && t.world.zsets == Run(Lua, cfg.window, t.redisCalls).buckets
    && t.world.local == Run(Deque, cfg.window, t.localCalls).buckets
  }

  /** The requests let through are covered by what the two limiters admitted. */
  ghost predicate Covered(cfg: Config, t: Trace, r: Request, end: real) {
    Admitted(t.admitted, r, end, cfg.window) <=
    Load(Lua, cfg.window, t.redisCalls, RedisKey(r), end) + Load(Deque, cfg.window, t.localCalls, LocalKey(r), end)
  }

  lemma AdmittedAppend(rs: seq<Request>, q: Request, r: Request, end: real, window: int)
    ensures Admitted(rs + [q], r, end, window) == Admitted(rs, r, end, window) +
      (if LocalKey(q) == LocalKey(r) && RedisKey(q) == RedisKey(r) && InWindow(false, q.now, end, window) then 1 else 0)
  {
    assert (rs + [q])[..|rs|] == rs;
  }

  /** One event lets through no more for r than the two limiters admit for it. */
  ghost predicate Gains(cfg: Config, t: Trace, u: Trace, r: Request, end: real) {
    Admitted(u.admitted, r, end, cfg.window) - Admitted(t.admitted, r, end, cfg.window) <=
    Load(Lua, cfg.window, u.redisCalls, RedisKey(r), end) - Load(Lua, cfg.window, t.redisCalls, RedisKey(r), end) +
    Load(Deque, cfg.window, u.localCalls, LocalKey(r), end) - Load(Deque, cfg.window, t.localCalls, LocalKey(r), end)
  }

  lemma AdvanceGains(cfg: Config, t: Trace, e: Event, r: Request, end: real)
    requires Tied(cfg, t)
    requires e.Check? && RedisKey(e.request) == RedisKey(r) && LocalKey(e.request) == LocalKey(r) ==> ResolveLimit(cfg, e.request).Some?
    ensures Tied(cfg, Advance(cfg, t, e)) && Gains(cfg, t, Advance(cfg, t, e), r, end)
  {
    hide Run;
    hide DequeStep;
    hide LuaStep;
    hide ResolveLimit;
    hide RedisKey;
    hide InWindow;
    hide Admitted;
    hide Load;
    if e.Check? {
      var q, limit := e.request, ResolveLimit(cfg, e.request);
      AdmittedAppend(t.admitted, q, r, end, cfg.window);
      if limit.Some? {
        var rc, lc := Call(RedisKey(q), q.now, limit.value), Call(LocalKey(q), q.now, limit.value);
        RunAppend(Lua, cfg.window, t.redisCalls, rc);
        RunAppend(Deque, cfg.window, t.localCalls, lc);
        LoadAppend(Lua, cfg.window, t.redisCalls, rc, RedisKey(r), end);
        LoadAppend(Deque, cfg.window, t.localCalls, lc, LocalKey(r), end);
      }
    }
  }

  lemma AdvanceKeeps(cfg: Config, t: Trace, e: Event, r: Request, end: real)
    requires Tied(cfg, t) && Covered(cfg, t, r, end)
    requires e.Check? && RedisKey(e.request) == RedisKey(r) && LocalKey(e.request) == LocalKey(r) ==> ResolveLimit(cfg, e.request).Some?
    ensures Tied(cfg, Advance(cfg, t, e)) && Covered(cfg, Advance(cfg, t, e), r, end)
  {
    AdvanceGains(cfg, t, e, r, end);
    hide Advance, Tied, Load, Admitted, RedisKey;
  }

  /** The requests of a run that share a bucket with r are limited, by at most `bound`. */
  ghost predicate Bounded(cfg: Config, e: Event, r: Request, bound: nat) {
    e.Check? && (RedisKey(e.request) == RedisKey(r) || LocalKey(e.request) == LocalKey(r)) ==>
      ResolveLimit(cfg, e.request).Some? && ResolveLimit(cfg, e.request).value <= bound
  }

  ghost predicate Orderly<K(!new)>(calls: seq<Call<K>>, k: K, bound: nat, last: real) {
    && Timely(calls)
    && (calls != [] ==> calls[|calls| - 1].now <= last)
    && forall i :: 0 <= i < |calls| && calls[i].bucket == k ==> calls[i].limit <= bound
  }

  lemma OrderlyAppend<K(!new)>(calls: seq<Call<K>>, c: Call<K>, k: K, bound: nat, last: real)
    requires Orderly(calls, k, bound, last) && 0.0 <= last <= c.now && (c.bucket == k ==> c.limit <= bound)
    ensures Orderly(calls + [c], k, bound, c.now)
  {
    var next := calls + [c];
    forall i, j | 0 <= i <= j < |next| ensures next[i].now <= next[j].now {
      if j == |calls| && i < j {
        assert calls[i].now <= calls[|calls| - 1].now;
      }
    }
  }

  lemma AdvanceOrderly(cfg: Config, t: Trace, e: Event, r: Request, bound: nat, last: real, next: real)
    requires Orderly(t.redisCalls, RedisKey(r), bound, last) && Orderly(t.localCalls, LocalKey(r), bound, last)
    requires Bounded(cfg, e, r, bound) && 0.0 <= last <= next && (e.Check? ==> e.request.now == next)
    ensures Orderly(Advance(cfg, t, e).redisCalls, RedisKey(r), bound, next)
    ensures Orderly(Advance(cfg, t, e).localCalls, LocalKey(r), bound, next)
  {
    hide ResolveLimit;
    hide RedisKey;
    hide CheckStep;
    if e.Check? && ResolveLimit(cfg, e.request).Some? {
      var q, limit := e.request, ResolveLimit(cfg, e.request).value;
      OrderlyAppend(t.redisCalls, Call(RedisKey(q), q.now, limit), RedisKey(r), bound, last);
      OrderlyAppend(t.localCalls, Call(LocalKey(q), q.now, limit), LocalKey(r), bound, last);
    }
  }

  /** The time of the last check of a run. */
  function LastTime(events: seq<Event>): real {
    if events == [] then 0.0
    else if events[|events| - 1].Check? then events[|events| - 1].request.now
    else LastTime(events[..|events| - 1])
  }

  lemma {:induction false} LastTimeIsSome(events: seq<Event>)
    requires InTime(events)
    ensures 0.0 <= LastTime(events)
    ensures LastTime(events) == 0.0 || exists i :: 0 <= i < |events| && events[i].Check? && events[i].request.now == LastTime(events)
  {
    if events != [] && !events[|events| - 1].Check? {
      LastTimeIsSome(events[..|events| - 1]);
    }
  }

  lemma {:induction false} RunKeeps(cfg: Config, up: bool, events: seq<Event>, r: Request, bound: nat, end: real)
    requires InTime(events) && forall i :: 0 <= i < |events| ==> Bounded(cfg, events[i], r, bound)
    ensures var t := RunEvents(cfg, up, events);
      && Tied(cfg, t) && Covered(cfg, t, r, end)
      && Orderly(t.redisCalls, RedisKey(r), bound, LastTime(events))
      && Orderly(t.localCalls, LocalKey(r), bound, LastTime(events))
  {
    if events != [] {
      var front, e := events[..|events| - 1], events[|events| - 1];
      RunKeeps(cfg, up, front, r, bound, end);
      LastTimeIsSome(front);
      var t := RunEvents(cfg, up, front);
      hide Advance;
      hide Tied;
      hide Covered;
      hide Orderly;
      AdvanceKeeps(cfg, t, e, r, end);
      AdvanceOrderly(cfg, t, e, r, bound, LastTime(front), LastTime(events));
    }
  }

  lemma {:induction false} OpenWithinClosed<K>(calls: seq<Call<K>>, ds: seq<Decision>, n: nat, k: K, e: real, w: int)
    requires n <= |calls| && n <= |ds|
    ensures Admissions(false, calls, ds, n, k, e, w) <= Admissions(true, calls, ds, n, k, e, w)
  {
    if n > 0 { OpenWithinClosed(calls, ds, n - 1, k, e, w); }
  }

  lemma LoadBound<K(!new)>(closed: bool, w: int, calls: seq<Call<K>>, k: K, bound: nat, last: real, e: real)
    requires Orderly(calls, k, bound, last)
    ensures Load(Stored(closed), w, calls, k, e) <= bound
  {
    AtMostLimit(closed, w, calls, k, bound, e);
    if closed {
      OpenWithinClosed(calls, Run(Deque, w, calls).decisions, |calls|, k, e, w);
    }
  }

  /** Whatever round trips fail, before or after their effect, and however often the server is lost and
      found again, at most twice the limit is let through for one key in any half-open window. */
  lemma AtMostTwice(cfg: Config, up: bool, events: seq<Event>, r: Request, bound: nat, end: real)
    requires InTime(events) && forall i :: 0 <= i < |events| ==> Bounded(cfg, events[i], r, bound)
    ensures Admitted(RunEvents(cfg, up, events).admitted, r, end, cfg.window) <= 2 * bound
  {
    RunKeeps(cfg, up, events, r, bound, end);
    var t := RunEvents(cfg, up, events);
    LoadBound(false, cfg.window, t.redisCalls, RedisKey(r), bound, LastTime(events), end);
    LoadBound(true, cfg.window, t.localCalls, LocalKey(r), bound, LastTime(events), end);
  }

  function Repeat<T>(x: T, n: nat): (r: seq<T>)
    ensures |r| == n && forall i :: 0 <= i < n ==> r[i] == x
  {
    if n == 0 then [] else Repeat(x, n - 1) + [x]
  }

  lemma RepeatFront<T>(x: T, n: nat)
    requires n > 0
    ensures Repeat(x, n)[..n - 1] == Repeat(x, n - 1)
  {
  }

  /** Stamps of the current instant are live. */
  lemma {:induction false} CopiesStay(now: real, w: int, k: nat)
    requires w > 0
    ensures RemoveRange(Repeat(now, k), 0.0, now - w as real) == Repeat(now, k)
    ensures Evict(Repeat(now, k), now - w as real) == Repeat(now, k)
  {
    if k > 0 {
      CopiesStay(now, w, k - 1);
      RepeatFront(now, k);
    }
  }

  lemma CopiesAdmit(now: real, w: int, k: nat, n: int)
    requires w > 0 && k < n
    ensures LuaStep(Repeat(now, k), now, w, n) == (Repeat(now, k + 1), Allowed)
    ensures DequeStep(Repeat(now, k), now, w, n) == (Repeat(now, k + 1), Allowed)
  {
    CopiesStay(now, w, k);
    hide RemoveRange, Evict;
  }

  /** The state after `served` admissions by the server and `spared` ones by the fallback, all of r. */
  ghost predicate Reached(t: Trace, r: Request, served: nat, spared: nat) {
    && t.world.connected == (spared == 0)
    && At(t.world.zsets, RedisKey(r)) == Repeat(r.now, served)
    && At(t.world.local, LocalKey(r)) == Repeat(r.now, spared)
    && t.admitted == Repeat(r, served + spared)
  }

  lemma ServedStep(cfg: Config, t: Trace, r: Request, n: nat, k: nat)
    requires cfg.window > 0 && ResolveLimit(cfg, r) == Some(n) && k < n && Reached(t, r, k, 0)
    ensures Reached(Advance(cfg, t, Check(r, NoFault)), r, k + 1, 0)
  {
    CopiesAdmit(r.now, cfg.window, k, n);
    hide LuaStep, DequeStep, ResolveLimit, RedisKey;
  }

  lemma SparedStep(cfg: Config, t: Trace, r: Request, n: nat, k: nat)
    requires cfg.window > 0 && ResolveLimit(cfg, r) == Some(n) && k < n && Reached(t, r, n, k)
    ensures Reached(Advance(cfg, t, Check(r, LostRequest)), r, n, k + 1)
  {
    CopiesAdmit(r.now, cfg.window, k, n);
    hide LuaStep, DequeStep, ResolveLimit, RedisKey;
  }

  /** n requests through the server, then m whose round trips are lost. */
  function Burst(r: Request, n: nat, m: nat): seq<Event> {
    Repeat(Check(r, NoFault), n) + Repeat(Check(r, LostRequest), m)
  }

  lemma RunEventsAppend(cfg: Config, up: bool, events: seq<Event>, e: Event)
    ensures RunEvents(cfg, up, events + [e]) == Advance(cfg, RunEvents(cfg, up, events), e)
  {
    hide Advance;
    assert (events + [e])[..|events|] == events;
  }

  lemma BurstSpares(r: Request, n: nat, m: nat)
    ensures Burst(r, n, m + 1) == Burst(r, n, m) + [Check(r, LostRequest)]
  {
  }

  lemma BurstServes(r: Request, n: nat)
    ensures Burst(r, n + 1, 0) == Burst(r, n, 0) + [Check(r, NoFault)]
  {
  }

  lemma NothingReached(cfg: Config, r: Request)
    ensures Reached(RunEvents(cfg, true, Burst(r, 0, 0)), r, 0, 0)
  {
    assert Burst(r, 0, 0) == [];
    hide Advance, RedisKey;
  }

  lemma {:induction false} BurstReaches(cfg: Config, r: Request, n: nat, served: nat, spared: nat)
    requires cfg.window > 0 && ResolveLimit(cfg, r) == Some(n) && served <= n && spared <= n && (spared > 0 ==> served == n)
    ensures Reached(RunEvents(cfg, true, Burst(r, served, spared)), r, served, spared)
    decreases served + spared
  {
    hide Advance, ResolveLimit, Reached, RunEvents, Burst;
    if spared > 0 {
      BurstReaches(cfg, r, n, served, spared - 1);
      BurstSpares(r, served, spared - 1);
      RunEventsAppend(cfg, true, Burst(r, served, spared - 1), Check(r, LostRequest));
      SparedStep(cfg, RunEvents(cfg, true, Burst(r, served, spared - 1)), r, n, spared - 1);
    } else if served > 0 {
      BurstReaches(cfg, r, n, served - 1, 0);
      BurstServes(r, served - 1);
      RunEventsAppend(cfg, true, Burst(r, served - 1, 0), Check(r, NoFault));
      ServedStep(cfg, RunEvents(cfg, true, Burst(r, served - 1, 0)), r, n, served - 1);
    } else {
      NothingReached(cfg, r);
    }
  }

  lemma {:induction false} AllAdmitted(r: Request, w: int, m: nat)
    requires w > 0
    ensures Admitted(Repeat(r, m), r, r.now, w) == m
  {
    hide RedisKey;
    if m > 0 {
      AllAdmitted(r, w, m - 1);
      RepeatFront(r, m);
    }
  }

  /** Twice the limit is reached for every limit n: n requests through the server and n through the
      fallback after the round trips are lost, all at one instant. */
  lemma TwiceIsReached(cfg: Config, r: Request, n: nat)
    requires cfg.window > 0 && ResolveLimit(cfg, r) == Some(n)
    ensures Admitted(RunEvents(cfg, true, Burst(r, n, n)).admitted, r, r.now, cfg.window) == 2 * n
  {
    hide RunEvents, Admitted, ResolveLimit, RedisKey;
    BurstReaches(cfg, r, n, n, n);
    AllAdmitted(r, cfg.window, 2 * n);
    hide Repeat, Burst;
  }

  /** The event is a check with the keys of r in the window ending at `end`. */
  predicate Concerns(cfg: Config, e: Event, r: Request, end: real) {
    e.Check? && RedisKey(e.request) == RedisKey(r) && LocalKey(e.request) == LocalKey(r) && InWindow(false, e.request.now, end, cfg.window)
  }

  /** The server decides the event: it is connected and the round trip succeeds. */
  predicate ServerDecides(t: Trace, e: Event) {
    t.world.connected && e.Check? && e.fault.NoFault?
  }

  /** What one of the limiters admitted in the window. */
  function SideLoad(cfg: Config, t: Trace, r: Request, end: real, server: bool): nat {
    if server then Load(Lua, cfg.window, t.redisCalls, RedisKey(r), end) else Load(Deque, cfg.window, t.localCalls, LocalKey(r), end)
  }

  lemma AdvanceOneSide(cfg: Config, t: Trace, e: Event, r: Request, end: real, server: bool)
    requires Tied(cfg, t) && Admitted(t.admitted, r, end, cfg.window) <= SideLoad(cfg, t, r, end, server)
    requires Concerns(cfg, e, r, end) ==> ServerDecides(t, e) == server && ResolveLimit(cfg, e.request).Some?
    ensures var u := Advance(cfg, t, e); Admitted(u.admitted, r, end, cfg.window) <= SideLoad(cfg, u, r, end, server)
  {
    hide Run, DequeStep, LuaStep, ResolveLimit, RedisKey, InWindow, Admitted, Load;
    if e.Check? {
      var q, limit := e.request, ResolveLimit(cfg, e.request);
      AdmittedAppend(t.admitted, q, r, end, cfg.window);
      if limit.Some? {
        LoadAppend(Lua, cfg.window, t.redisCalls, Call(RedisKey(q), q.now, limit.value), RedisKey(r), end);
        LoadAppend(Deque, cfg.window, t.localCalls, Call(LocalKey(q), q.now, limit.value), LocalKey(r), end);
      }
    }
  }

  /** Every check of those keys in that window was decided by the same limiter. */
  ghost predicate OneLimiter(cfg: Config, up: bool, events: seq<Event>, r: Request, end: real, server: bool) {
    forall i :: 0 <= i < |events| && Concerns(cfg, events[i], r, end) ==> ServerDecides(RunEvents(cfg, up, events[..i]), events[i]) == server
  }

  lemma {:induction false} RunOneSide(cfg: Config, up: bool, events: seq<Event>, r: Request, bound: nat, end: real, server: bool)
    requires InTime(events) && forall i :: 0 <= i < |events| ==> Bounded(cfg, events[i], r, bound)
    requires OneLimiter(cfg, up, events, r, end, server)
    ensures var t := RunEvents(cfg, up, events); Admitted(t.admitted, r, end, cfg.window) <= SideLoad(cfg, t, r, end, server)
  {
    hide Advance, Covered, Orderly, Tied, Concerns, ServerDecides, SideLoad, ResolveLimit;
    if events != [] {
      var n := |events| - 1;
      var front := events[..n];
      OneLimiterFront(cfg, up, events, r, end, server);
      RunOneSide(cfg, up, front, r, bound, end, server);
      RunKeeps(cfg, up, front, r, bound, end);
      ConcernsBounded(cfg, events[n], r, end, bound);
      hide OneLimiter, InTime, Bounded;
      AdvanceOneSide(cfg, RunEvents(cfg, up, front), events[n], r, end, server);
    }
  }

  lemma OneLimiterFront(cfg: Config, up: bool, events: seq<Event>, r: Request, end: real, server: bool)
    requires OneLimiter(cfg, up, events, r, end, server) && events != []
    ensures var n := |events| - 1;
      && OneLimiter(cfg, up, events[..n], r, end, server)
      && (Concerns(cfg, events[n], r, end) ==> ServerDecides(RunEvents(cfg, up, events[..n]), events[n]) == server)
  {
    hide RunEvents, Concerns, ServerDecides;
    var front := events[..|events| - 1];
    assert forall i :: 0 <= i < |front| ==> front[..i] == events[..i] && front[i] == events[i];
  }

  lemma ConcernsBounded(cfg: Config, e: Event, r: Request, end: real, bound: nat)
    requires Bounded(cfg, e, r, bound)
    ensures Concerns(cfg, e, r, end) ==> ResolveLimit(cfg, e.request).Some?
  {
  }

  /** In a window in which every check of a key was decided by the same limiter, the limit itself is the
      bound, whatever happened before and after, and to other keys. */
  lemma AtMostOncePerLimiter(cfg: Config, up: bool, events: seq<Event>, r: Request, bound: nat, end: real, server: bool)
    requires InTime(events) && forall i :: 0 <= i < |events| ==> Bounded(cfg, events[i], r, bound)
    requires OneLimiter(cfg, up, events, r, end, server)
    ensures Admitted(RunEvents(cfg, up, events).admitted, r, end, cfg.window) <= bound
  {
    RunOneSide(cfg, up, events, r, bound, end, server);
    RunKeeps(cfg, up, events, r, bound, end);
    var t := RunEvents(cfg, up, events);
    if server {
      LoadBound(false, cfg.window, t.redisCalls, RedisKey(r), bound, LastTime(events), end);
    } else {
      LoadBound(true, cfg.window, t.localCalls, LocalKey(r), bound, LastTime(events), end);
    }
  }

  predicate Faultless(e: Event) {
    (e.Check? ==> e.fault.NoFault?) && (e.Probe? ==> e.up)
  }

  lemma {:induction false} StaysConnected(cfg: Config, events: seq<Event>)
    requires forall i :: 0 <= i < |events| ==> Faultless(events[i])
    ensures RunEvents(cfg, true, events).world.connected
  {
    if events != [] {
      StaysConnected(cfg, events[..|events| - 1]);
      hide LuaStep, DequeStep, RedisKey;
    }
  }

  /** In particular when nothing fails. */
  lemma AtMostOnceWithoutFaults(cfg: Config, events: seq<Event>, r: Request, bound: nat, end: real)
    requires InTime(events) && forall i :: 0 <= i < |events| ==> Bounded(cfg, events[i], r, bound)
    requires forall i :: 0 <= i < |events| ==> Faultless(events[i])
    ensures Admitted(RunEvents(cfg, true, events).admitted, r, end, cfg.window) <= bound
  {
    forall i | 0 <= i < |events| && Concerns(cfg, events[i], r, end)
      ensures ServerDecides(RunEvents(cfg, true, events[..i]), events[i])
    {
      StaysConnected(cfg, events[..i]);
      assert Faultless(events[i]);
    }
    hide Concerns, ServerDecides, Bounded;
    AtMostOncePerLimiter(cfg, true, events, r, bound, end, true);
  }

  lemma LastColon(a: string, b: string, x: string, y: string)
    requires a + ":" + x == b + ":" + y && ':' !in x && ':' !in y
    ensures a == b && x == y
  {
    var s := a + ":" + x;
    assert s[|a|] == ':' && s[|b|] == ':';
    if |a| != |b| {
      assert false;
    }
    assert a == s[..|a|] && b == s[..|b|];
    assert x == s[|a| + 1..] && y == s[|b| + 1..];
  }

  /** The joined Redis key separates clients, even with colons in the client part, as long as groups and
      tiers contain none. */
  lemma RedisKeyInjective(q: Request, r: Request)
    requires RedisKey(q) == RedisKey(r)
    requires ':' !in q.group && ':' !in q.tier && ':' !in r.group && ':' !in r.tier
    ensures q.ip == r.ip && q.group == r.group && q.tier == r.tier
  {
    var a, b := "rl:" + q.ip, "rl:" + r.ip;
    LastColon(a + ":" + q.group, b + ":" + r.group, q.tier, r.tier);
    LastColon(a, b, q.group, r.group);
    assert q.ip == a[3..] && r.ip == b[3..];
  }
}
