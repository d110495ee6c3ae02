/** Request counters and the cached snapshot of extensions/embedding_server/metrics.py, with the request
    middleware of extensions/embedding_server/main.py.

    Everything under `with _lock` is one atomic step; the steps of any number of threads interleave. */
module Metrics {
  import opened Wrappers

  const CACHE_TTL := 1.5

  datatype Counters = Counters(
    total: nat, errors: nat, inflight: nat, byStatus: map<int, nat>,
    latSum: real, latCount: nat, domain: map<string, int>)

  const Zero := Counters(0, 0, 0, map[], 0.0, 0, map[])

  /** A finished request as the middleware reports it. */
  datatype Ended = Ended(status: int, dur: real, error: bool)

  predicate Bad(e: Ended) { e.error || e.status >= 500 }

  // ---------------------------------------------------------------- the critical sections

  function Start(c: Counters): Counters { c.(inflight := c.inflight + 1) }

  function End(c: Counters, e: Ended): Counters {
    c.(inflight := if c.inflight == 0 then 0 else c.inflight - 1,
       total := c.total + 1,
       latSum := c.latSum + e.dur,
       latCount := c.latCount + 1,
       byStatus := c.byStatus[e.status := (if e.status in c.byStatus then c.byStatus[e.status] else 0) + 1],
       errors := c.errors + if Bad(e) then 1 else 0)
  }

  function Incr(c: Counters, name: string, n: int): Counters {
    c.(domain := c.domain[name := (if name in c.domain then c.domain[name] else 0) + n])
  }

  class Recorder {
    var total: nat
    var errors: nat
    var inflight: nat
    var byStatus: map<int, nat>
    var latSum: real
    var latCount: nat
    var domain: map<string, int>

    ghost function Value(): Counters reads this {
      Counters(total, errors, inflight, byStatus, latSum, latCount, domain)
    }

    constructor ()
      ensures Value() == Zero
    {
      total, errors, inflight, byStatus := 0, 0, 0, map[];
      latSum, latCount, domain := 0.0, 0, map[];
    }

    method ReqStart()
      modifies this
      ensures Value() == Start(old(Value()))
    {
      inflight := inflight + 1;
    }

    method ReqEnd(status: int, dur: real, error: bool)
      modifies this
      ensures Value() == End(old(Value()), Ended(status, dur, error))
    {
      inflight := if inflight - 1 < 0 then 0 else inflight - 1;
      total := total + 1;
      latSum := latSum + dur;
      latCount := latCount + 1;
      var count := if status in byStatus then byStatus[status] else 0;
      byStatus := byStatus[status := count + 1];
      if error || status >= 500 { errors := errors + 1; }
    }

    method IncrBy(name: string, n: int)
      modifies this
      ensures Value() == Incr(old(Value()), name, n)
    {
      var value := if name in domain then domain[name] else 0;
      domain := domain[name := value + n];
    }
  }

  // ---------------------------------------------------------------- the system

  /** What one build of the snapshot collected: the call that built it read the clock at `begun`. */
  datatype Data = Data(begun: real, collected: real, requests: Counters)

  /** A thread inside `snapshot()`; `since` is how many counter updates had happened when it began. */
  datatype Phase =
    | Begun(now: real, since: nat)
    | Hit(now: real, since: nat, cached: Data)
    | Missed(now: real, since: nat)
    | Built(now: real, since: nat, built: Data, seen: nat)
    | Done(now: real, since: nat, base: Data, requests: Counters, seen: nat)

  datatype State = State(
    counters: Counters,
    cache: Option<(real, Data)>,
    calls: seq<Phase>,
    clock: real,
    active: nat,              // history: requests between their start and their end
    ended: seq<Ended>,        // history: requests that have ended
    added: seq<(string, int)>, // history: increments of domain counters
    log: seq<Counters>)       // history: the counters after each update

  datatype Event =
    | RequestStarts
    | RequestEnds(e: Ended)
    | Increment(name: string, n: int)
    | Tick(to: real)
    | Snapshot                // a thread enters `snapshot()` and reads the clock
    | Advance(t: nat)         // a thread inside it takes its next step

  const Init := State(Zero, None, [], 0.0, 0, [], [], [Zero])

  function Update(s: State, c: Counters): State { s.(counters := c, log := s.log + [c]) }

  function Step(s: State, e: Event): Option<State> {
    match e
    case RequestStarts => Some(Update(s, Start(s.counters)).(active := s.active + 1))
    case RequestEnds(r) =>
      if s.active == 0 then None  // the middleware ends only what it started
      else Some(Update(s, End(s.counters, r)).(active := s.active - 1, ended := s.ended + [r]))
    case Increment(name, n) => Some(Update(s, Incr(s.counters, name, n)).(added := s.added + [(name, n)]))
    case Tick(to) => if to < s.clock then None else Some(s.(clock := to))
    case Snapshot => Some(s.(calls := s.calls + [Begun(s.clock, |s.log|)]))
    case Advance(t) => if t < |s.calls| then AdvanceCall(s, t, s.calls[t]) else None
  }

  function AdvanceCall(s: State, t: nat, p: Phase): Option<State>
    requires t < |s.calls|
  {
    match p
    case Begun(now, since) =>
      var young := s.cache.Some? && now - s.cache.value.0 < CACHE_TTL;
      Some(s.(calls := s.calls[t := if young then Hit(now, since, s.cache.value.1) else Missed(now, since)]))
    case Hit(now, since, d) => Some(s.(calls := s.calls[t := Done(now, since, d, s.counters, |s.log|)]))
    case Missed(now, since) =>
      Some(s.(calls := s.calls[t := Built(now, since, Data(now, s.clock, s.counters), |s.log|)]))
    case Built(now, since, d, seen) =>
      Some(s.(cache := Some((now, d)), calls := s.calls[t := Done(now, since, d, d.requests, seen)]))
    case Done(_, _, _, _, _) => None
  }

  function Run(s: State, es: seq<Event>): Option<State>
    decreases |es|
  {
    if es == [] then Some(s)
    else
      match Step(s, es[0])
      case None => None
      case Some(next) => Run(next, es[1..])
  }

  // ---------------------------------------------------------------- counting

  function CountStatus(es: seq<Ended>, status: int): nat {
    if es == [] then 0
    else CountStatus(es[..|es| - 1], status) + if es[|es| - 1].status == status then 1 else 0
  }

  function CountBad(es: seq<Ended>): nat {
    if es == [] then 0 else CountBad(es[..|es| - 1]) + if Bad(es[|es| - 1]) then 1 else 0
  }

  function SumDur(es: seq<Ended>): real {
    if es == [] then 0.0 else SumDur(es[..|es| - 1]) + es[|es| - 1].dur
  }

  function SumAdded(added: seq<(string, int)>, name: string): int {
    if added == [] then 0
    else SumAdded(added[..|added| - 1], name) + if added[|added| - 1].0 == name then added[|added| - 1].1 else 0
  }

  ghost function SumValues(m: map<int, nat>): nat
    decreases |m|
  {
    if m == map[] then 0
    else
      SomeKey(m);
      var k :| k in m;
      m[k] + SumValues(m - {k})
  }

  lemma SomeKey(m: map<int, nat>)
    ensures m == map[] || exists k :: k in m
  {
    if forall k :: k !in m { assert m == map[]; }
  }

  lemma {:induction false} SumWithout(m: map<int, nat>, k: int)
    requires k in m
    ensures SumValues(m) == m[k] + SumValues(m - {k})
    decreases |m|
  {
    var c :| c in m && SumValues(m) == m[c] + SumValues(m - {c});
    if c != k {
      SumWithout(m - {c}, k);
      SumWithout(m - {k}, c);
      assert m - {c} - {k} == m - {k} - {c};
    }
  }

  lemma SumAfterIncrement(m: map<int, nat>, k: int)
    ensures SumValues(m[k := (if k in m then m[k] else 0) + 1]) == SumValues(m) + 1
  {
    var m' := m[k := (if k in m then m[k] else 0) + 1];
    SumWithout(m', k);
    assert m' - {k} == m - {k};
    if k in m { SumWithout(m, k); } else { assert m - {k} == m; }
  }

  ghost predicate Counted(s: State) {
    var c := s.counters;
    && c.inflight == s.active
    && c.total == |s.ended| == c.latCount
    && c.errors == CountBad(s.ended)
    && c.latSum == SumDur(s.ended)
    && (forall k :: (if k in c.byStatus then c.byStatus[k] else 0) == CountStatus(s.ended, k))
    && forall name :: (if name in c.domain then c.domain[name] else 0) == SumAdded(s.added, name)
  }

  // ---------------------------------------------------------------- the invariant

  ghost predicate CallOk(s: State, p: Phase) {
    && p.now <= s.clock && p.since <= |s.log|
    && match p
       case Begun(_, _) => true
       case Missed(_, _) => true
       case Hit(now, _, d) => now - d.begun < CACHE_TTL && d.begun <= d.collected <= s.clock
       case Built(now, since, d, seen) =>
         && d.begun == now <= d.collected <= s.clock
         && since <= seen <= |s.log| && seen > 0 && d.requests == s.log[seen - 1]
       case Done(now, since, d, r, seen) =>
         && now - d.begun < CACHE_TTL && d.begun <= d.collected <= s.clock
         && since <= seen <= |s.log| && seen > 0 && r == s.log[seen - 1]
  }

  ghost predicate Inv(s: State) {
    && Counted(s)
    && |s.log| > 0 && s.log[|s.log| - 1] == s.counters
    && (s.cache.Some? ==>
          s.cache.value.0 == s.cache.value.1.begun <= s.cache.value.1.collected <= s.clock)
    && forall t | 0 <= t < |s.calls| :: CallOk(s, s.calls[t])
  }

  lemma OneMoreEnded(es: seq<Ended>, e: Ended)
    ensures CountBad(es + [e]) == CountBad(es) + if Bad(e) then 1 else 0
    ensures SumDur(es + [e]) == SumDur(es) + e.dur
    ensures forall k :: CountStatus(es + [e], k) == CountStatus(es, k) + if e.status == k then 1 else 0
  {
    assert (es + [e])[..|es|] == es;
  }

  lemma OneMoreAdded(added: seq<(string, int)>, name: string, n: int)
    ensures forall k :: SumAdded(added + [(name, n)], k) == SumAdded(added, k) + if name == k then n else 0
  {
    assert (added + [(name, n)])[..|added|] == added;
  }

  lemma StepKeepsCounted(s: State, e: Event)
    requires Counted(s) && Step(s, e).Some?
    ensures Counted(Step(s, e).value)
  {
    hide CountBad, CountStatus, SumDur, SumAdded;
    if e.Increment? { OneMoreAdded(s.added, e.name, e.n); }
    if e.RequestEnds? { OneMoreEnded(s.ended, e.e); }
  }

  lemma StepKeepsInv(s: State, e: Event)
    requires Inv(s) && Step(s, e).Some?
    ensures Inv(Step(s, e).value)
  {
    StepKeepsCounted(s, e);
    hide Counted, Start, End, Incr;
    StepKeepsCalls(s, e);
    hide CallOk;
    if e.Advance? { assert CallOk(s, s.calls[e.t]); CallIsOk(s, e.t); }
  }

  lemma CallIsOk(s: State, t: nat)
    requires t < |s.calls| && CallOk(s, s.calls[t])
    ensures s.calls[t].now <= s.clock
    ensures s.calls[t].Built? ==> s.calls[t].built.begun == s.calls[t].now <= s.calls[t].built.collected <= s.clock
  {}

  lemma StepKeepsCalls(s: State, e: Event)
    requires Inv(s) && Step(s, e).Some?
    ensures var next := Step(s, e).value;
            forall t | 0 <= t < |next.calls| :: CallOk(next, next.calls[t])
  {
    hide Counted, Start, End, Incr;
    var next := Step(s, e).value;
    forall t | 0 <= t < |next.calls| ensures CallOk(next, next.calls[t]) {
      if t < |s.calls| { assert CallOk(s, s.calls[t]); }
    }
  }

  lemma {:induction false} RunKeepsInv(s: State, es: seq<Event>)
    requires Inv(s) && Run(s, es).Some?
    ensures Inv(Run(s, es).value)
    decreases |es|
  {
    if es != [] {
      StepKeepsInv(s, es[0]);
      RunKeepsInv(Step(s, es[0]).value, es[1..]);
    }
  }

  lemma InitOk()
    ensures Inv(Init)
  {}

  /** The statuses add up in every run. */
  lemma {:induction false} RunKeepsSum(s: State, es: seq<Event>)
    requires Run(s, es).Some? && SumValues(s.counters.byStatus) == s.counters.total
    ensures SumValues(Run(s, es).value.counters.byStatus) == Run(s, es).value.counters.total
    decreases |es|
  {
    hide SumValues;
    if es != [] {
      if es[0].RequestEnds? { SumAfterIncrement(s.counters.byStatus, es[0].e.status); }
      RunKeepsSum(Step(s, es[0]).value, es[1..]);
    }
  }

  // ---------------------------------------------------------------- main results

  /** Over every interleaving with paired starts and ends the counters say what they claim to say: the
      clamp at zero never hides anything, the statuses add up, errors are the failed requests, and every domain
      counter is the sum of its increments. */
  lemma CountersAreExact(es: seq<Event>)
    requires Run(Init, es).Some?
    ensures var s := Run(Init, es).value;
            var c := s.counters;
            && c.inflight == s.active && c.total == |s.ended| == c.latCount
            && c.errors == CountBad(s.ended) && c.latSum == SumDur(s.ended)
            && SumValues(c.byStatus) == c.total
            && (forall k :: (if k in c.byStatus then c.byStatus[k] else 0) == CountStatus(s.ended, k))
            && forall name :: (if name in c.domain then c.domain[name] else 0) == SumAdded(s.added, name)
  {
    InitOk();
    RunKeepsInv(Init, es);
    assert SumValues(map[]) == 0;
    RunKeepsSum(Init, es);
  }

  /** Because starts and ends are paired, an end never meets a zero in-flight counter. */
  lemma ClampNeverFires(es: seq<Event>, r: Ended)
    requires Run(Init, es).Some? && Step(Run(Init, es).value, RequestEnds(r)).Some?
    ensures var s := Run(Init, es).value;
            s.counters.inflight > 0 && End(s.counters, r).inflight == s.counters.inflight - 1
  {
    CountersAreExact(es);
  }

  /** Every answer of `snapshot()`, whether cached or built, and however publications overtook each other:
      the build behind it was begun less than the cache lifetime before the call, and its request counters
      are the values at some moment between the call's beginning and its end. */
  lemma AnswersAreFresh(es: seq<Event>, t: nat)
    requires Run(Init, es).Some?
    requires var s := Run(Init, es).value; t < |s.calls| && s.calls[t].Done?
    ensures var s := Run(Init, es).value;
            var p := s.calls[t];
            && p.now - CACHE_TTL < p.base.begun <= p.base.collected <= s.clock
            && p.since <= p.seen <= |s.log| && p.seen > 0 && p.requests == s.log[p.seen - 1]
  {
    InitOk();
    RunKeepsInv(Init, es);
    var s := Run(Init, es).value;
    assert CallOk(s, s.calls[t]);
  }

  /** A build that is published serves the next call if that begins less than 1.5 seconds after the build began, and
      otherwise the next call builds again. */
  lemma NextCall(s: State, t: nat, to: real)
    requires t < |s.calls| && s.calls[t].Built? && s.clock <= to
    ensures var u := |s.calls|;
            var end := Run(s, [Advance(t), Tick(to), Snapshot, Advance(u)]);
            && end.Some? && u < |end.value.calls|
            && end.value.calls[u] == if to < s.calls[t].now + 1.5 then Hit(to, |s.log|, s.calls[t].built) else Missed(to, |s.log|)
  {
    var u := |s.calls|;
    var es := [Advance(t), Tick(to), Snapshot, Advance(u)];
    assert es[1..] == [Tick(to), Snapshot, Advance(u)] && es[1..][1..] == [Snapshot, Advance(u)];
    assert es[1..][1..][1..] == [Advance(u)] && es[1..][1..][1..][1..] == [];
    var s1 := Step(s, Advance(t)).value;
    var s2 := Step(s1, Tick(to)).value;
    var s3 := Step(s2, Snapshot).value;
    var s4 := Step(s3, Advance(u)).value;
    assert s3.calls[u] == Begun(to, |s.log|);
    hide Step;
    assert Run(s3, [Advance(u)]) == Run(s4, []);
    assert Run(s2, [Snapshot, Advance(u)]) == Run(s3, [Advance(u)]);
    assert Run(s1, [Tick(to), Snapshot, Advance(u)]) == Run(s2, [Snapshot, Advance(u)]);
  }
}
