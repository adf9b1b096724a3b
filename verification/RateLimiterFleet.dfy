/** Any number of limiter processes in front of one server.  The server's stamps are shared; each process
    has its own connection and its own in-process fallback. */
module RateLimiterFleet {
  import opened Wrappers
  import opened SlidingWindow
  import opened RateLimiter

  datatype Node = Node(connected: bool, local: map<(string, string), seq<real>>, localCalls: seq<Call<(string, string)>>)

  datatype Fleet = Fleet(zsets: map<string, seq<real>>, redisCalls: seq<Call<string>>, nodes: seq<Node>, admitted: seq<Request>)

  /** Process p meets the event. */
  datatype FleetEvent = On(p: nat, event: Event)

  /** What process p sees: itself and the server. */
  function View(f: Fleet, p: nat): Trace
    requires p < |f.nodes|
  {
    var node := f.nodes[p];
    Trace(World(node.connected, f.zsets, node.local), f.redisCalls, node.localCalls, f.admitted)
  }

  /** The process takes one step of the configured limiter; an unknown process takes none. */
  function FleetAdvance(cfg: Config, f: Fleet, e: FleetEvent): Fleet {
    if e.p >= |f.nodes| then f
    else
      var t := Advance(cfg, View(f, e.p), e.event);
      Fleet(t.world.zsets, t.redisCalls, f.nodes[e.p := Node(t.world.connected, t.world.local, t.localCalls)], t.admitted)
  }

  /** Fresh processes, each with or without a connection. */
  function FreshNodes(up: seq<bool>): (nodes: seq<Node>)
    ensures |nodes| == |up| && forall p :: 0 <= p < |up| ==> nodes[p] == Node(up[p], map[], [])
  {
    if up == [] then [] else FreshNodes(up[..|up| - 1]) + [Node(up[|up| - 1], map[], [])]
  }

  function FleetRun(cfg: Config, up: seq<bool>, events: seq<FleetEvent>): (f: Fleet)
    ensures |f.nodes| == |up|
  {
    if events == [] then Fleet(map[], [], FreshNodes(up), [])
    else FleetAdvance(cfg, FleetRun(cfg, up, events[..|events| - 1]), events[|events| - 1])
  }

  // ---- the bound ----

  /** What all fallbacks together admitted for r. */
  function LocalLoad(w: int, nodes: seq<Node>, r: Request, end: real): nat {
    if nodes == [] then 0
    else LocalLoad(w, nodes[..|nodes| - 1], r, end) + Load(Deque, w, nodes[|nodes| - 1].localCalls, LocalKey(r), end)
  }

  lemma {:induction false} LocalLoadUpdate(w: int, nodes: seq<Node>, p: nat, node: Node, r: Request, end: real)
    requires p < |nodes|
    ensures LocalLoad(w, nodes[p := node], r, end) == LocalLoad(w, nodes, r, end)
      + Load(Deque, w, node.localCalls, LocalKey(r), end) - Load(Deque, w, nodes[p].localCalls, LocalKey(r), end)
  {
    hide Load;
    var front, after := nodes[..|nodes| - 1], nodes[p := node];
    if p < |nodes| - 1 {
      LocalLoadUpdate(w, front, p, node, r, end);
      assert after[..|nodes| - 1] == front[p := node];
    } else {
      assert after[..|nodes| - 1] == front;
    }
  }

  /** All stamps are tied to the calls, and what was let through is covered by what was admitted. */
  ghost predicate FleetTied(cfg: Config, f: Fleet) {
    forall p :: 0 <= p < |f.nodes| ==> Tied(cfg, View(f, p))
  }

  ghost predicate FleetCovered(cfg: Config, f: Fleet, r: Request, end: real) {
    Admitted(f.admitted, r, end, cfg.window) <=
    Load(Lua, cfg.window, f.redisCalls, RedisKey(r), end) + LocalLoad(cfg.window, f.nodes, r, end)
  }

  ghost predicate FleetOrderly(f: Fleet, r: Request, bound: nat, last: real) {
    && Orderly(f.redisCalls, RedisKey(r), bound, last)
    && forall p :: 0 <= p < |f.nodes| ==> Orderly(f.nodes[p].localCalls, LocalKey(r), bound, last)
  }

  lemma OrderlyLater<K(!new)>(calls: seq<Call<K>>, k: K, bound: nat, last: real, next: real)
    requires Orderly(calls, k, bound, last) && last <= next
    ensures Orderly(calls, k, bound, next)
  {
  }

  lemma StepTied(cfg: Config, f: Fleet, e: FleetEvent, r: Request, end: real, bound: nat)
    requires FleetTied(cfg, f) && Bounded(cfg, e.event, r, bound)
    ensures FleetTied(cfg, FleetAdvance(cfg, f, e))
  {
    if e.p < |f.nodes| {
      AdvanceGains(cfg, View(f, e.p), e.event, r, end);
      hide Advance, Gains, Run;
      var t, g := Advance(cfg, View(f, e.p), e.event), FleetAdvance(cfg, f, e);
      assert View(g, e.p) == t;
      forall p | 0 <= p < |g.nodes| ensures Tied(cfg, View(g, p)) {
        assert Tied(cfg, View(f, p));
        assert Tied(cfg, t);
        if p != e.p { assert g.nodes[p] == f.nodes[p]; }
      }
    }
  }

  lemma StepCovered(cfg: Config, f: Fleet, e: FleetEvent, r: Request, bound: nat, end: real)
    requires FleetTied(cfg, f) && FleetCovered(cfg, f, r, end) && Bounded(cfg, e.event, r, bound)
    ensures FleetCovered(cfg, FleetAdvance(cfg, f, e), r, end)
  {
    if e.p < |f.nodes| {
      var t := Advance(cfg, View(f, e.p), e.event);
      AdvanceGains(cfg, View(f, e.p), e.event, r, end);
      LocalLoadUpdate(cfg.window, f.nodes, e.p, Node(t.world.connected, t.world.local, t.localCalls), r, end);
      hide Advance, Run, Load, LocalLoad, Admitted, RedisKey, Tied;
    }
  }

  lemma StepOrderly(cfg: Config, f: Fleet, e: FleetEvent, r: Request, bound: nat, last: real, next: real)
    requires FleetOrderly(f, r, bound, last) && Bounded(cfg, e.event, r, bound)
    requires 0.0 <= last <= next && (e.event.Check? ==> e.event.request.now == next)
    ensures FleetOrderly(FleetAdvance(cfg, f, e), r, bound, next)
  {
    OrderlyLater(f.redisCalls, RedisKey(r), bound, last, next);
    forall p | 0 <= p < |f.nodes| ensures Orderly(f.nodes[p].localCalls, LocalKey(r), bound, next) {
      OrderlyLater(f.nodes[p].localCalls, LocalKey(r), bound, last, next);
    }
    if e.p < |f.nodes| {
      AdvanceOrderly(cfg, View(f, e.p), e.event, r, bound, last, next);
      hide Advance, Orderly, Bounded;
    }
  }

  function EventsOf(events: seq<FleetEvent>): (r: seq<Event>)
    ensures |r| == |events| && forall i :: 0 <= i < |r| ==> r[i] == events[i].event
  {
    if events == [] then [] else EventsOf(events[..|events| - 1]) + [events[|events| - 1].event]
  }

  lemma {:induction false} FleetRunKeeps(cfg: Config, up: seq<bool>, events: seq<FleetEvent>, r: Request, bound: nat, end: real)
    requires InTime(EventsOf(events)) && forall i :: 0 <= i < |events| ==> Bounded(cfg, events[i].event, r, bound)
    ensures var f := FleetRun(cfg, up, events);
      FleetTied(cfg, f) && FleetCovered(cfg, f, r, end) && FleetOrderly(f, r, bound, LastTime(EventsOf(events)))
  {
    hide FleetAdvance, Bounded;
    if events == [] {
      StartIsCovered(cfg, up, r, end);
    } else {
      var front, e := events[..|events| - 1], events[|events| - 1];
      FleetRunKeeps(cfg, up, front, r, bound, end);
      LastTimeIsSome(EventsOf(front));
      assert EventsOf(events)[..|events| - 1] == EventsOf(front);
      hide FleetTied, FleetCovered, FleetOrderly;
      var f := FleetRun(cfg, up, front);
      StepTied(cfg, f, e, r, end, bound);
      StepCovered(cfg, f, e, r, bound, end);
      StepOrderly(cfg, f, e, r, bound, LastTime(EventsOf(front)), LastTime(EventsOf(events)));
    }
  }

  lemma {:induction false} StartIsCovered(cfg: Config, up: seq<bool>, r: Request, end: real)
    ensures var f := Fleet(map[], [], FreshNodes(up), []); FleetTied(cfg, f) && FleetCovered(cfg, f, r, end)
  {
  }

  lemma {:induction false} LocalLoadBound(w: int, nodes: seq<Node>, r: Request, bound: nat, last: real, end: real)
    requires forall p :: 0 <= p < |nodes| ==> Orderly(nodes[p].localCalls, LocalKey(r), bound, last)
    ensures LocalLoad(w, nodes, r, end) <= |nodes| * bound
  {
    hide Orderly, Load;
    if nodes != [] {
      var n := |nodes| - 1;
      LocalLoadBound(w, nodes[..n], r, bound, last, end);
      LoadBound(true, w, nodes[n].localCalls, LocalKey(r), bound, last, end);
      assert |nodes| * bound == n * bound + bound;
    }
  }

  lemma OneMoreTimes(n: nat, bound: nat)
    ensures (n + 1) * bound == n * bound + bound
  {
  }

  /** W processes on one server let through at most W + 1 times the limit for one key in any half-open
      window, whatever round trips fail in whichever process. */
  lemma AtMostPerProcess(cfg: Config, up: seq<bool>, events: seq<FleetEvent>, r: Request, bound: nat, end: real)
    requires InTime(EventsOf(events)) && forall i :: 0 <= i < |events| ==> Bounded(cfg, events[i].event, r, bound)
    ensures Admitted(FleetRun(cfg, up, events).admitted, r, end, cfg.window) <= (|up| + 1) * bound
  {
    FleetRunKeeps(cfg, up, events, r, bound, end);
    var f, last := FleetRun(cfg, up, events), LastTime(EventsOf(events));
    OneMoreTimes(|up|, bound);
    hide Admitted, Load, LocalLoad, FleetRun, Orderly, InTime, EventsOf, Bounded, RedisKey;
    LoadBound(false, cfg.window, f.redisCalls, RedisKey(r), bound, last, end);
    LocalLoadBound(cfg.window, f.nodes, r, bound, last, end);
  }

  // ---- it is reached ----

  /** The process has let through k requests of r on its own, and lost the server if there were any. */
  predicate Spared(node: Node, r: Request, k: nat) {
    node.connected == (k == 0) && At(node.local, LocalKey(r)) == Repeat(r.now, k)
  }

  /** The server has let through `served` requests of r, processes 0 to q - 1 each n, and process q k. */
  ghost predicate FleetReached(f: Fleet, r: Request, n: nat, served: nat, q: nat, k: nat) {
    && At(f.zsets, RedisKey(r)) == Repeat(r.now, served)
    && f.admitted == Repeat(r, served + q * n + k)
    && forall p :: 0 <= p < |f.nodes| ==> Spared(f.nodes[p], r, if p < q then n else if p == q then k else 0)
  }

  lemma FleetServedStep(cfg: Config, f: Fleet, r: Request, n: nat, k: nat)
    requires cfg.window > 0 && ResolveLimit(cfg, r) == Some(n) && k < n && |f.nodes| > 0 && FleetReached(f, r, n, k, 0, 0)
    ensures FleetReached(FleetAdvance(cfg, f, On(0, Check(r, NoFault))), r, n, k + 1, 0, 0)
  {
    CopiesAdmit(r.now, cfg.window, k, n);
    hide LuaStep, DequeStep, ResolveLimit, RedisKey;
  }

  lemma FleetSparedStep(cfg: Config, f: Fleet, r: Request, n: nat, q: nat, k: nat)
    requires cfg.window > 0 && ResolveLimit(cfg, r) == Some(n) && k < n && q < |f.nodes| && FleetReached(f, r, n, n, q, k)
    ensures FleetReached(FleetAdvance(cfg, f, On(q, Check(r, LostRequest))), r, n, n, q, k + 1)
  {
    CopiesAdmit(r.now, cfg.window, k, n);
    hide LuaStep, DequeStep, ResolveLimit, RedisKey;
  }

  /** n requests through the server, then n at each of the first q processes whose round trips are lost. */
  function FleetBurst(r: Request, n: nat, q: nat): seq<FleetEvent> {
    if q == 0 then Repeat(On(0, Check(r, NoFault)), n)
    else FleetBurst(r, n, q - 1) + Repeat(On(q - 1, Check(r, LostRequest)), n)
  }

  lemma {:induction false} FleetServes(cfg: Config, up: seq<bool>, r: Request, n: nat, k: nat)
    requires cfg.window > 0 && ResolveLimit(cfg, r) == Some(n) && k <= n
    requires |up| > 0 && forall p :: 0 <= p < |up| ==> up[p]
    ensures FleetReached(FleetRun(cfg, up, Repeat(On(0, Check(r, NoFault)), k)), r, n, k, 0, 0)
  {
    hide FleetAdvance, ResolveLimit, RedisKey;
    if k > 0 {
      FleetServes(cfg, up, r, n, k - 1);
      RepeatFront(On(0, Check(r, NoFault)), k);
      hide FleetReached;
      FleetServedStep(cfg, FleetRun(cfg, up, Repeat(On(0, Check(r, NoFault)), k - 1)), r, n, k - 1);
    }
  }

  /** Process q takes k lost round trips, after the burst of those before it. */
  function Tail(r: Request, n: nat, q: nat, k: nat): seq<FleetEvent> {
    FleetBurst(r, n, q) + Repeat(On(q, Check(r, LostRequest)), k)
  }

  lemma {:induction false} FleetSpares(cfg: Config, up: seq<bool>, r: Request, n: nat, q: nat, k: nat)
    requires cfg.window > 0 && ResolveLimit(cfg, r) == Some(n) && k <= n && q < |up|
    requires FleetReached(FleetRun(cfg, up, FleetBurst(r, n, q)), r, n, n, q, 0)
    ensures FleetReached(FleetRun(cfg, up, Tail(r, n, q, k)), r, n, n, q, k)
  {
    hide FleetAdvance, ResolveLimit, RedisKey, FleetReached, FleetBurst;
    var events := Tail(r, n, q, k);
    if k == 0 {
      assert events == FleetBurst(r, n, q);
    } else {
      FleetSpares(cfg, up, r, n, q, k - 1);
      RepeatFront(On(q, Check(r, LostRequest)), k);
      assert events[..|events| - 1] == Tail(r, n, q, k - 1);
      FleetSparedStep(cfg, FleetRun(cfg, up, Tail(r, n, q, k - 1)), r, n, q, k - 1);
    }
  }

  /** A process that has let through all n is one of those before the next. */
  lemma NextProcess(f: Fleet, r: Request, n: nat, q: nat)
    requires FleetReached(f, r, n, n, q, n)
    ensures FleetReached(f, r, n, n, q + 1, 0)
  {
    assert (q + 1) * n == q * n + n;
    hide Repeat, RedisKey;
  }

  lemma {:induction false} FleetBurstReaches(cfg: Config, up: seq<bool>, r: Request, n: nat, q: nat)
    requires cfg.window > 0 && ResolveLimit(cfg, r) == Some(n) && q <= |up|
    requires |up| > 0 && forall p :: 0 <= p < |up| ==> up[p]
    ensures FleetReached(FleetRun(cfg, up, FleetBurst(r, n, q)), r, n, n, q, 0)
  {
    hide FleetRun, ResolveLimit, FleetReached;
    if q == 0 {
      FleetServes(cfg, up, r, n, n);
    } else {
      FleetBurstReaches(cfg, up, r, n, q - 1);
      FleetSpares(cfg, up, r, n, q - 1, n);
      NextProcess(FleetRun(cfg, up, FleetBurst(r, n, q)), r, n, q - 1);
    }
  }

  /** The bound is reached for every limit n and every number of processes: n requests through the server,
      then n at each process whose round trips are lost, all at one instant. */
  lemma PerProcessIsReached(cfg: Config, up: seq<bool>, r: Request, n: nat)
    requires cfg.window > 0 && ResolveLimit(cfg, r) == Some(n)
    requires |up| > 0 && forall p :: 0 <= p < |up| ==> up[p]
    ensures Admitted(FleetRun(cfg, up, FleetBurst(r, n, |up|)).admitted, r, r.now, cfg.window) == (|up| + 1) * n
  {
    hide FleetRun, Admitted, ResolveLimit, RedisKey, FleetBurst;
    FleetBurstReaches(cfg, up, r, n, |up|);
    assert n + |up| * n + 0 == (|up| + 1) * n;
    AllAdmitted(r, cfg.window, n + |up| * n);
    hide Repeat;
  }
}
