/** Agent registration status under heartbeats, the disconnect checker (backend/app/agent/heartbeat_service.py and
    disconnect_checker.py) and administrator requests (the two status updates of backend/app/servermgr/service.py). */
module Agents {
  import opened Wrappers

  type Host = string
  type Facts = int  // the metrics a heartbeat carries

  datatype Status = UNREGISTERED | REGISTERED | DISCONNECTED
  datatype Agent = Agent(status: Status, facts: Facts)

  /** The tables argus_agents and argus_agents_heartbeat. */
  datatype Db = Db(agents: map<Host, Agent>, beats: map<Host, int>)

  function Managed(db: Db): set<Host> {
    set h | h in db.agents && db.agents[h].status != UNREGISTERED
  }

  // ---------------------------------------------------------------- transactions as functions

  function HeartbeatDb(db: Db, h: Host, facts: Facts, now: int): Db {
    var status :=
      if h !in db.agents then UNREGISTERED
      else if db.agents[h].status == DISCONNECTED then REGISTERED
      else db.agents[h].status;
    Db(db.agents[h := Agent(status, facts)], db.beats[h := now])
  }

  function StaleHosts(db: Db, threshold: int): set<Host> {
    set h | h in db.beats && db.beats[h] < threshold
  }

  function Reassign(db: Db, hosts: set<Host>, old_: Status, new_: Status): Db {
    db.(agents := map h | h in db.agents ::
          if h in hosts && db.agents[h].status == old_ then db.agents[h].(status := new_) else db.agents[h])
  }

  function MarkDb(db: Db, stale: set<Host>): Db { Reassign(db, stale, REGISTERED, DISCONNECTED) }
  function RegisterDb(db: Db, hosts: set<Host>): Db { Reassign(db, hosts, UNREGISTERED, REGISTERED) }
  function UnregisterDb(db: Db, hosts: set<Host>): Db { Reassign(db, hosts, REGISTERED, UNREGISTERED) }

  // ---------------------------------------------------------------- the code, on the tables

  class Store {
    var agents: map<Host, Agent>
    var beats: map<Host, int>

    ghost function Contents(): Db reads this { Db(agents, beats) }

    constructor ()
      ensures Contents() == Db(map[], map[])
    {
      agents, beats := map[], map[];
    }

    method ProcessHeartbeat(h: Host, facts: Facts, now: int)
      modifies this
      ensures Contents() == HeartbeatDb(old(Contents()), h, facts, now)
    {
      if h !in agents {
        agents := agents[h := Agent(UNREGISTERED, facts)];
      } else {
        var agent := agents[h];
        if agent.status == DISCONNECTED {
          agent := agent.(status := REGISTERED);
        }
        agent := agent.(facts := facts);
        agents := agents[h := agent];
      }
      if h !in beats {
        beats := beats[h := now];
      } else {
        beats := beats[h := now];
      }
    }

    /** The select of the checker. */
    method Scan(threshold: int) returns (stale: set<Host>)
      ensures stale == StaleHosts(Contents(), threshold)
    {
      stale := {};
      var rest := beats.Keys;
      while rest != {}
        invariant rest <= beats.Keys
        invariant stale == set h | h in beats && h !in rest && beats[h] < threshold
        decreases rest
      {
        var h :| h in rest;
        rest := rest - {h};
        if beats[h] < threshold { stale := stale + {h}; }
      }
    }

    /** The update of the checker. */
    method Mark(stale: set<Host>) returns (marked: set<Host>)
      modifies this
      ensures Contents() == MarkDb(old(Contents()), stale)
      ensures marked == set h | h in old(agents) && h in stale && old(agents)[h].status == REGISTERED
    {
      marked := {};
      var rest := stale;
      while rest != {}
        invariant rest <= stale
        invariant beats == old(beats) && agents.Keys == old(agents).Keys
        invariant forall h | h in agents ::
                    agents[h] == if h in stale && h !in rest && old(agents)[h].status == REGISTERED
                                 then old(agents)[h].(status := DISCONNECTED) else old(agents)[h]
        invariant marked == set h | h in old(agents) && h in stale && h !in rest && old(agents)[h].status == REGISTERED
        decreases rest
      {
        var h :| h in rest;
        rest := rest - {h};
        if h in agents && agents[h].status == REGISTERED {
          agents := agents[h := agents[h].(status := DISCONNECTED)];
          marked := marked + {h};
        }
      }
    }

    /** One pass of the checker that nothing interrupts. */
    method CheckDisconnected(now: int, timeout: int)
      modifies this
      ensures Contents() == MarkDb(old(Contents()), StaleHosts(old(Contents()), now - timeout))
    {
      var stale := Scan(now - timeout);
      if stale == {} { return; }
      var marked := Mark(stale);
    }
  }

  // ---------------------------------------------------------------- runs

  /** A heartbeat and an administrator request are one transaction each; the checker is two, a scan and a mark, with
      anything in between. */
  datatype Event =
    | Heartbeat(h: Host, facts: Facts, now: int)
    | ScanAt(now: int)
    | MarkStale
    | Register(hosts: set<Host>)
    | Unregister(hosts: set<Host>)

  datatype State = State(
    db: Db,
    clock: int,
    timeout: nat,
    scanned: Option<set<Host>>,  // what the running check found, between its scan and its mark
    wanted: set<Host>)           // history: the known hosts whose latest administrator request was to register

  ghost predicate Initial(s: State) {
    s.db == Db(map[], map[]) && s.scanned.None? && s.wanted == {}
  }

  /** One transaction. Clock readings never go backwards. */
  function Step(s: State, e: Event): Option<State> {
    match e
    case Heartbeat(h, facts, now) =>
      if now < s.clock then None
      else Some(s.(db := HeartbeatDb(s.db, h, facts, now), clock := now))
    case ScanAt(now) =>
      if now < s.clock || s.scanned.Some? then None
      else Some(s.(scanned := Some(StaleHosts(s.db, now - s.timeout)), clock := now))
    case MarkStale =>
      if s.scanned.None? then None
      else Some(s.(db := MarkDb(s.db, s.scanned.value), scanned := None))
    case Register(hosts) =>
      Some(s.(db := RegisterDb(s.db, hosts), wanted := s.wanted + (hosts * s.db.agents.Keys)))
    case Unregister(hosts) =>
      Some(s.(db := UnregisterDb(s.db, hosts), wanted := s.wanted - hosts))
  }

  function Run(s: State, es: seq<Event>): Option<State>
    decreases |es|
  {
    if es == [] then Some(s)
    else
      match Step(s, es[0])
      case None => None
      case Some(next) => Run(next, es[1..])
  }

  ghost predicate Inv(s: State) {
    && s.db.agents.Keys == s.db.beats.Keys
    && s.wanted <= Managed(s.db)
    && forall h | h in s.db.beats :: s.db.beats[h] <= s.clock
  }

  lemma InitialIsSound(s: State)
    requires Initial(s)
    ensures Inv(s) && Silent(s)
  {}

  lemma StepKeepsInv(s: State, e: Event)
    requires Inv(s) && Step(s, e).Some?
    ensures Inv(Step(s, e).value)
  {}

  lemma {:induction false} RunKeepsInv(s: State, es: seq<Event>)
    requires Inv(s) && Run(s, es).Some?
    ensures Inv(Run(s, es).value)
    decreases |es|
  {
    if es != [] {
      StepKeepsInv(s, es[0]);
      hide Step, Inv;
      RunKeepsInv(Step(s, es[0]).value, es[1..]);
    }
  }

  lemma {:induction false} RunSnoc(s: State, es: seq<Event>, e: Event)
    ensures Run(s, es + [e]) == if Run(s, es).Some? then Step(Run(s, es).value, e) else None
    decreases |es|
  {
    hide Step;
    if es == [] {
      assert [] + [e] == [e] && [e][1..] == [];
    } else {
      assert (es + [e])[1..] == es[1..] + [e];
      if Step(s, es[0]).Some? { RunSnoc(Step(s, es[0]).value, es[1..], e); }
    }
  }

  // ---------------------------------------------------------------- status and administrator

  predicate Names(e: Event, h: Host) { (e.Register? || e.Unregister?) && h in e.hosts }

  /** The administrator does not want the agent registered, and yet it counts as registered. */
  predicate OutOfStep(s: State, h: Host) { h in Managed(s.db) && h !in s.wanted }

  /** A request to unregister that finds the agent DISCONNECTED. */
  predicate Misses(s: State, e: Event, h: Host) {
    e.Unregister? && h in e.hosts && h in s.db.agents && s.db.agents[h].status == DISCONNECTED
  }

  /** The latest request that names the agent was a miss. */
  ghost predicate LatestMissed(s: State, es: seq<Event>, h: Host) {
    exists k: nat :: IsLatest(es, h, k) && Run(s, es[..k]).Some? && Misses(Run(s, es[..k]).value, es[k], h)
  }

  ghost predicate IsLatest(es: seq<Event>, h: Host, k: nat) {
    k < |es| && Names(es[k], h) && forall j | k < j < |es| :: !Names(es[j], h)
  }

  /** What one step does to one agent: a request that names it leaves it out of step just when it misses, and nothing
      else gets it out of step or back. */
  lemma StepOutOfStep(s: State, e: Event, h: Host)
    requires Inv(s) && Step(s, e).Some?
    ensures OutOfStep(Step(s, e).value, h) <==> if Names(e, h) then Misses(s, e, h) else OutOfStep(s, h)
  {}

  lemma LatestSnoc(s: State, es: seq<Event>, e: Event, h: Host)
    requires Run(s, es).Some?
    ensures LatestMissed(s, es + [e], h)
       <==> if Names(e, h) then Misses(Run(s, es).value, e, h) else LatestMissed(s, es, h)
  {
    hide Names, Misses, Run;
    var all := es + [e];
    assert all[..|es|] == es && all[|es|] == e;
    if Names(e, h) {
      assert IsLatest(all, h, |es|);
    } else {
      forall k: nat | k < |es|
        ensures all[..k] == es[..k] && all[k] == es[k] && (IsLatest(all, h, k) <==> IsLatest(es, h, k))
      {
        assert forall j | k < j < |es| :: all[j] == es[j];
      }
    }
  }

  /** In every run, status and administrator agree about an agent exactly unless the latest request that names it was
      one to unregister that found it DISCONNECTED; and they can only disagree in one way. The two tables have the
      same hosts. */
  lemma {:induction false} StatusFollowsAdministrator(s: State, es: seq<Event>)
    requires Initial(s) && Run(s, es).Some?
    ensures var end := Run(s, es).value;
            && end.db.agents.Keys == end.db.beats.Keys && end.wanted <= Managed(end.db)
            && forall h | h in end.db.agents ::
                 (h in end.wanted <==> end.db.agents[h].status in {REGISTERED, DISCONNECTED}) <==> !LatestMissed(s, es, h)
    decreases |es|
  {
    InitialIsSound(s);
    RunKeepsInv(s, es);
    var end := Run(s, es).value;
    forall h | h in end.db.agents
      ensures (h in end.wanted <==> end.db.agents[h].status in {REGISTERED, DISCONNECTED}) <==> !LatestMissed(s, es, h)
    {
      OutOfStepExactly(s, es, h);
      assert h in Managed(end.db) <==> end.db.agents[h].status in {REGISTERED, DISCONNECTED};
    }
  }

  lemma {:induction false} OutOfStepExactly(s: State, es: seq<Event>, h: Host)
    requires Initial(s) && Run(s, es).Some?
    ensures OutOfStep(Run(s, es).value, h) <==> LatestMissed(s, es, h)
    decreases |es|
  {
    InitialIsSound(s);
    if es != [] {
      var init, e := es[..|es| - 1], es[|es| - 1];
      assert es == init + [e];
      hide Step, Inv, Names, Misses, OutOfStep, LatestMissed, Initial;
      RunSnoc(s, init, e);
      OutOfStepExactly(s, init, h);
      LatestSnoc(s, init, e, h);
      RunKeepsInv(s, init);
      StepOutOfStep(Run(s, init).value, e, h);
    }
  }

  lemma RunCons(s: State, e: Event, es: seq<Event>)
    ensures Run(s, [e] + es) == if Step(s, e).Some? then Run(Step(s, e).value, es) else None
  {
    hide Step;
    assert ([e] + es)[1..] == es;
  }

  /** The agent is registered and silent, the check disconnects it, and then the request to unregister comes. */
  function MissedRequest(s: State, h: Host, facts: Facts): seq<Event> {
    var late := s.clock + s.timeout + 1;
    [Heartbeat(h, facts, s.clock)] + ([Register({h})] + ([ScanAt(late)] + ([MarkStale] + ([Unregister({h})]
    + ([Heartbeat(h, facts, late)] + [])))))
  }

  /** A run that ends with a registered agent that the administrator has unregistered. */
  lemma UnregisteredComesBack(s: State, h: Host, facts: Facts)
    requires Initial(s)
    ensures var end := Run(s, MissedRequest(s, h, facts));
            && end.Some? && h !in end.value.wanted
            && h in end.value.db.agents && end.value.db.agents[h].status == REGISTERED
  {
    var late := s.clock + s.timeout + 1;
    var es6 := [Heartbeat(h, facts, late)] + [];
    var es5 := [Unregister({h})] + es6;
    var es4 := [MarkStale] + es5;
    var es3 := [ScanAt(late)] + es4;
    var es2 := [Register({h})] + es3;
    var s2 := RegisteredAgent(s, h, facts, es2);
    var s4 := DisconnectedAgent(s2, h, es3, es5);
    var s5 := Step(s4, Unregister({h})).value;
    var s6 := Step(s5, Heartbeat(h, facts, late)).value;
    assert s5.db.agents[h].status == DISCONNECTED && h !in s5.wanted;
    assert s6.db.agents[h].status == REGISTERED && h !in s6.wanted;
    hide Step;
    RunCons(s4, Unregister({h}), es6);
    RunCons(s5, Heartbeat(h, facts, late), []);
  }

  lemma RegisteredAgent(s: State, h: Host, facts: Facts, rest: seq<Event>) returns (next: State)
    requires Initial(s) && rest != [] && rest[0] == Register({h})
    ensures Run(s, [Heartbeat(h, facts, s.clock)] + rest) == Run(next, rest[1..])
    ensures h in next.db.agents && next.db.agents[h].status == REGISTERED
    ensures h in next.db.beats && next.db.beats[h] == s.clock == next.clock
    ensures next.timeout == s.timeout && next.scanned.None?
  {
    var mid := Step(s, Heartbeat(h, facts, s.clock)).value;
    next := Step(mid, Register({h})).value;
    RunCons(s, Heartbeat(h, facts, s.clock), rest);
    RunCons(mid, Register({h}), rest[1..]);
    assert rest == [Register({h})] + rest[1..];
  }

  lemma DisconnectedAgent(s: State, h: Host, es: seq<Event>, rest: seq<Event>) returns (next: State)
    requires es == [ScanAt(s.clock + s.timeout + 1)] + ([MarkStale] + rest) && s.scanned.None?
    requires h in s.db.agents && s.db.agents[h].status == REGISTERED && h in s.db.beats && s.db.beats[h] == s.clock
    ensures Run(s, es) == Run(next, rest)
    ensures h in next.db.agents && next.db.agents[h].status == DISCONNECTED && next.clock == s.clock + s.timeout + 1
  {
    var late := s.clock + s.timeout + 1;
    var mid := Step(s, ScanAt(late)).value;
    assert h in mid.scanned.value;
    next := Step(mid, MarkStale).value;
    assert next.db.agents[h].status == DISCONNECTED;
    hide Step;
    RunCons(s, ScanAt(late), [MarkStale] + rest);
    RunCons(mid, MarkStale, rest);
  }

  /** Heartbeats and checks neither grant nor revoke a registration, however many of them there are. */
  lemma {:induction false} OnlyAdministratorsManage(s: State, es: seq<Event>)
    requires Inv(s) && Run(s, es).Some?
    requires forall e | e in es :: !e.Register? && !e.Unregister?
    ensures Managed(Run(s, es).value.db) == Managed(s.db)
    decreases |es|
  {
    if es != [] {
      StepKeepsInv(s, es[0]);
      OnlyAdministratorsManage(Step(s, es[0]).value, es[1..]);
    }
  }

  /** After its heartbeat an agent is REGISTERED if an administrator has it registered, else UNREGISTERED;
      in particular a DISCONNECTED agent comes back as REGISTERED. */
  lemma HeartbeatRestores(s: State, h: Host, facts: Facts, now: int)
    requires Inv(s) && s.clock <= now
    ensures Step(s, Heartbeat(h, facts, now)).Some?
    ensures var next := Step(s, Heartbeat(h, facts, now)).value;
            && h in next.db.agents
            && next.db.agents[h].status == (if h in Managed(s.db) then REGISTERED else UNREGISTERED)
            && (h in s.db.agents && s.db.agents[h].status == DISCONNECTED ==> next.db.agents[h].status == REGISTERED)
            && forall k | k != h :: k in s.db.agents <==> k in next.db.agents && next.db.agents[k] == s.db.agents[k]
  {
    assert h in s.db.agents ==> (h in Managed(s.db) <==> s.db.agents[h].status != UNREGISTERED);
  }

  /** Whatever happens after a request to unregister a managed agent, as long as no further request names it: the agent
      is and stays UNREGISTERED if and only if the request found it REGISTERED. */
  lemma UnregisterMissesDisconnected(s: State, hosts: set<Host>, es: seq<Event>, h: Host)
    requires Inv(s) && h in hosts && h in Managed(s.db)
    requires Run(Step(s, Unregister(hosts)).value, es).Some? && forall e | e in es :: !Names(e, h)
    ensures var end := Run(Step(s, Unregister(hosts)).value, es).value;
            && h in end.db.agents
            && (end.db.agents[h].status == UNREGISTERED <==> s.db.agents[h].status == REGISTERED)
  {
    StepKeepsInv(s, Unregister(hosts));
    ManagedStays(Step(s, Unregister(hosts)).value, es, h);
  }

  lemma {:induction false} ManagedStays(s: State, es: seq<Event>, h: Host)
    requires Inv(s) && Run(s, es).Some? && h in s.db.agents && forall e | e in es :: !Names(e, h)
    ensures h in Run(s, es).value.db.agents && (h in Managed(Run(s, es).value.db) <==> h in Managed(s.db))
    decreases |es|
  {
    if es != [] {
      StepKeepsInv(s, es[0]);
      assert es[0] in es && h in Step(s, es[0]).value.db.agents;
      assert h in Managed(Step(s, es[0]).value.db) <==> h in Managed(s.db);
      hide Step, Inv, Names, Managed;
      ManagedStays(Step(s, es[0]).value, es[1..], h);
    }
  }

  // ---------------------------------------------------------------- the two halves of a check

  /** A check that nothing interrupts leaves no REGISTERED agent older than the threshold and changes the
      status of nobody else. */
  lemma UninterruptedCheck(s: State, now: int)
    requires Inv(s) && s.scanned.None? && s.clock <= now
    ensures var end := Run(s, [ScanAt(now), MarkStale]);
            && end.Some? && end.value.db.agents.Keys == s.db.agents.Keys && end.value.db.beats == s.db.beats
            && forall h | h in s.db.agents ::
                 && (end.value.db.agents[h].status == REGISTERED ==> end.value.db.beats[h] >= now - s.timeout)
                 && end.value.db.agents[h].status ==
                      if s.db.agents[h].status == REGISTERED && s.db.beats[h] < now - s.timeout
                      then DISCONNECTED else s.db.agents[h].status
  {
    var es := [ScanAt(now), MarkStale];
    assert es[1..] == [MarkStale] && es[1..][1..] == [];
    var mid := Step(s, es[0]).value;
    assert Run(mid, [MarkStale]) == Run(Step(mid, MarkStale).value, []);
  }

  ghost predicate BeatIn(es: seq<Event>, h: Host) {
    exists e | e in es :: e.Heartbeat? && e.h == h
  }

  ghost predicate NoCheck(es: seq<Event>) {
    forall e | e in es :: !e.ScanAt? && !e.MarkStale?
  }

  lemma {:induction false} BeatsSince(s: State, es: seq<Event>, h: Host, threshold: int)
    requires Inv(s) && Run(s, es).Some? && NoCheck(es)
    requires h in s.db.beats && s.db.beats[h] < threshold <= s.clock
    ensures var end := Run(s, es).value;
            && Inv(end) && end.scanned == s.scanned && s.clock <= end.clock
            && h in end.db.beats && (end.db.beats[h] < threshold <==> !BeatIn(es, h))
    decreases |es|
  {
    if es != [] {
      var e := es[0];
      var next := Step(s, e).value;
      StepKeepsInv(s, e);
      assert e in es;
      if e.Heartbeat? && e.h == h {
        FreshStaysFresh(next, es[1..], h, threshold);
      } else {
        BeatsSince(next, es[1..], h, threshold);
        assert BeatIn(es, h) <==> BeatIn(es[1..], h);
      }
    }
  }

  lemma {:induction false} FreshStaysFresh(s: State, es: seq<Event>, h: Host, threshold: int)
    requires Inv(s) && Run(s, es).Some? && NoCheck(es)
    requires h in s.db.beats && threshold <= s.db.beats[h]
    ensures var end := Run(s, es).value;
            && Inv(end) && end.scanned == s.scanned && s.clock <= end.clock
            && h in end.db.beats && threshold <= end.db.beats[h]
    decreases |es|
  {
    if es != [] {
      StepKeepsInv(s, es[0]);
      FreshStaysFresh(Step(s, es[0]).value, es[1..], h, threshold);
    }
  }

  /** Whatever happens between the scan and the mark of a check: the mark disconnects exactly the agents
      found stale that are REGISTERED by then, and one of them has in fact beaten within the timeout
      exactly when its heartbeat fell between the two halves. */
  lemma InterruptedCheck(s: State, now: int, between: seq<Event>, h: Host)
    requires Inv(s) && s.scanned.None? && s.clock <= now && NoCheck(between)
    requires Run(Step(s, ScanAt(now)).value, between).Some?
    requires var before := Run(Step(s, ScanAt(now)).value, between).value;
             h in before.db.agents && before.db.agents[h].status == REGISTERED
    ensures var before := Run(Step(s, ScanAt(now)).value, between).value;
            var stale := StaleHosts(s.db, now - s.timeout);
            && before.scanned == Some(stale)
            && var after := Step(before, MarkStale).value;
            && (after.db.agents[h].status == DISCONNECTED <==> h in stale)
            && (h in stale ==>
                  h in after.db.beats && (after.db.beats[h] >= now - s.timeout <==> BeatIn(between, h)))
  {
    var mid := Step(s, ScanAt(now)).value;
    assert Inv(mid);
    StaysScanned(mid, between);
    if h in StaleHosts(s.db, now - s.timeout) {
      BeatsSince(mid, between, h, now - s.timeout);
    }
  }

  /** The agent is registered, falls silent, and beats between the two halves of a check. */
  function LateBeat(s: State, h: Host, facts: Facts): seq<Event> {
    var late := s.clock + s.timeout + 1;
    [Heartbeat(h, facts, s.clock)] + ([Register({h})] + ([ScanAt(late)] + ([Heartbeat(h, facts, late)] + ([MarkStale] + []))))
  }

  /** A run that ends with an agent marked DISCONNECTED at the very moment of its heartbeat. */
  lemma MarkedThoughBeating(s: State, h: Host, facts: Facts)
    requires Initial(s)
    ensures var end := Run(s, LateBeat(s, h, facts));
            && end.Some? && h in end.value.db.agents && end.value.db.agents[h].status == DISCONNECTED
            && h in end.value.db.beats && end.value.db.beats[h] == end.value.clock
  {
    var late := s.clock + s.timeout + 1;
    var es5 := [MarkStale] + [];
    var es4 := [Heartbeat(h, facts, late)] + es5;
    var es3 := [ScanAt(late)] + es4;
    var es2 := [Register({h})] + es3;
    var s2 := RegisteredAgent(s, h, facts, es2);
    var s3 := Step(s2, ScanAt(late)).value;
    assert h in s3.scanned.value;
    var s4 := Step(s3, Heartbeat(h, facts, late)).value;
    assert s4.db.agents[h].status == REGISTERED && s4.db.beats[h] == late == s4.clock;
    var s5 := Step(s4, MarkStale).value;
    assert s5.db.agents[h].status == DISCONNECTED;
    hide Step;
    RunCons(s2, ScanAt(late), es4);
    RunCons(s3, Heartbeat(h, facts, late), es5);
    RunCons(s4, MarkStale, []);
  }

  lemma {:induction false} StaysScanned(s: State, es: seq<Event>)
    requires Run(s, es).Some? && NoCheck(es)
    ensures Run(s, es).value.scanned == s.scanned
    decreases |es|
  {
    if es != [] { StaysScanned(Step(s, es[0]).value, es[1..]); }
  }

  /** No heartbeat of an agent the running check has found stale arrives before the check marks it. */
  ghost predicate Undisturbed(s: State, es: seq<Event>)
    requires Run(s, es).Some?
    decreases |es|
  {
    es != [] ==>
      && (es[0].Heartbeat? && s.scanned.Some? ==> es[0].h !in s.scanned.value)
      && Undisturbed(Step(s, es[0]).value, es[1..])
  }

  ghost predicate Silent(s: State) {
    && (forall h | h in s.db.agents && h in s.db.beats && s.db.agents[h].status == DISCONNECTED ::
          s.db.beats[h] < s.clock - s.timeout)
    && (s.scanned.Some? ==> forall h | h in s.scanned.value :: h in s.db.beats && s.db.beats[h] < s.clock - s.timeout)
  }

  lemma SilentStep(s: State, e: Event)
    requires Inv(s) && Silent(s) && Step(s, e).Some?
    requires e.Heartbeat? && s.scanned.Some? ==> e.h !in s.scanned.value
    ensures Silent(Step(s, e).value)
  {}

  /** In a run whose checks are undisturbed, DISCONNECTED always means silent for longer than the timeout. */
  lemma {:induction false} DisconnectedMeansSilent(s: State, es: seq<Event>)
    requires Inv(s) && Silent(s) && Run(s, es).Some? && Undisturbed(s, es)
    ensures var end := Run(s, es).value;
            forall h | h in end.db.agents && end.db.agents[h].status == DISCONNECTED ::
              h in end.db.beats && end.db.beats[h] < end.clock - end.timeout
    decreases |es|
  {
    if es != [] {
      StepKeepsInv(s, es[0]);
      SilentStep(s, es[0]);
      hide Silent, Step, Inv;
      DisconnectedMeansSilent(Step(s, es[0]).value, es[1..]);
    } else {
      assert s.db.agents.Keys == s.db.beats.Keys;
    }
  }
}
