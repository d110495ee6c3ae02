/** The PTY session manager (agent/app/terminal/service.py).

    Masters are numbered in the order in which they were opened, so a number is never used again.
    Closing is counted per master.
    A session that was obtained from the manager can outlive its entry there. */

module Terminal {
  import opened Wrappers

  const IDLE_TIMEOUT := 120

  // ---------------------------------------------------------------- the manager's state as a value

  datatype Entry = Entry(fd: nat, last: int)

  datatype State = State(sessions: map<string, Entry>, masters: nat, closed: multiset<nat>) {
    /** The masters that were opened and not closed since. */
    ghost predicate Open(fd: nat) { fd < masters && closed[fd] == 0 }

    ghost predicate Owned(fd: nat) { exists sid :: sid in sessions && sessions[sid].fd == fd }

    /** Holds in every run: live sessions have masters of their own, and those are open. */
    ghost predicate Sound() {
      && (forall sid | sid in sessions :: Open(sessions[sid].fd))
      && (forall a, b | a in sessions && b in sessions && sessions[a].fd == sessions[b].fd :: a == b)
      && (forall fd | fd in closed :: fd < masters && closed[fd] == 1)
    }

    /** No master is open without a session. */
    ghost predicate NoLeak() { forall fd: nat | Open(fd) :: Owned(fd) }

    function Fds(sids: set<string>): set<nat>
      requires sids <= sessions.Keys
    {
      set sid | sid in sids :: sessions[sid].fd
    }

    /** Past the maximum nothing happens; a master whose `fork` fails stays open without a session. */
    function Create(sid: string, now: int, max: int, forked: bool): State {
      if |sessions| >= max then this
      else if !forked then this.(masters := masters + 1)
      else this.(sessions := sessions[sid := Entry(masters, now)], masters := masters + 1)
    }

    function CloseThese(sids: set<string>): State
      requires sids <= sessions.Keys
    {
      this.(sessions := sessions - sids, closed := closed + multiset(Fds(sids)))
    }

    function Close(sid: string): State {
      if sid in sessions then CloseThese({sid}) else this
    }

    /** Activity on the session object that holds this master: without effect once the session is gone. */
    function Touch(sid: string, fd: nat, now: int): State {
      if sid in sessions && sessions[sid].fd == fd then this.(sessions := sessions[sid := Entry(fd, now)]) else this
    }

    function Stale(now: int): set<string> {
      set sid | sid in sessions && now - sessions[sid].last > IDLE_TIMEOUT
    }
  }

  const INITIAL := State(map[], 0, multiset{})

  // ---------------------------------------------------------------- the classes

  class Session {
    const id: string
    const fd: nat
    var active: bool
    var lastActivity: int

    constructor (id: string, fd: nat, now: int)
      ensures this.id == id && this.fd == fd && active && lastActivity == now
    {
      this.id, this.fd, active, lastActivity := id, fd, true, now;
    }

    method Touch(now: int)
      modifies this`lastActivity
      ensures lastActivity == now
    {
      lastActivity := now;
    }
  }

  class Manager {
    const max: int
    var sessions: map<string, Session>
    /** The operating system's side: how many masters were opened, and which were closed. */
    var masters: nat
    var closed: multiset<nat>

    constructor (max: int)
      ensures Valid() && this.max == max && Value() == INITIAL && fresh(this) && sessions == map[]
    {
      this.max, sessions, masters, closed := max, map[], 0, multiset{};
    }

    /** Every session is filed under its own id, and no two share a master. */
    ghost predicate Valid()
      reads this, sessions.Values
    {
      && (forall sid | sid in sessions :: sessions[sid].id == sid)
      && Value().Sound()
    }

    ghost function Value(): State
      reads this, sessions.Values
    {
      State(map sid | sid in sessions :: Entry(sessions[sid].fd, sessions[sid].lastActivity), masters, closed)
    }

    /** `create_session`; `None` is the refusal at the maximum, or the `OSError` of a failing `fork`. */
    method CreateSession(sid: string, now: int, forked: bool) returns (session: Option<Session>)
      requires Valid()
      modifies this
      ensures Valid() && Value() == old(Value()).Create(sid, now, max, forked)
      ensures session.None? <==> old(|sessions|) >= max || !forked
      ensures session.None? ==> sessions == old(sessions)
      ensures session.Some? ==> fresh(session.value) && sessions == old(sessions)[sid := session.value]
    {
      hide State.Sound;
      ghost var before := Value();
      SameSize();
      if |sessions| >= max { return None; }
      hide State.Create;
      CreateIs(before, sid, now, max);
      CreateKeepsSound(before, sid, now, max, true);
      var master := OpenMaster();
      if !forked { return None; }
      var s := new Session(sid, master, now);
      File(s);
      session := Some(s);
    }

    /** The assignment into `_sessions`. */
    method File(s: Session)
      requires forall sid | sid in sessions :: sessions[sid].id == sid
      modifies this`sessions
      ensures forall sid | sid in sessions :: sessions[sid].id == sid
      ensures sessions == old(sessions)[s.id := s]
      ensures Value() == old(Value()).(sessions := old(Value()).sessions[s.id := Entry(s.fd, s.lastActivity)])
    {
      ghost var before := Value();
      sessions := sessions[s.id := s];
      assert Value().sessions == before.sessions[s.id := Entry(s.fd, s.lastActivity)];
    }

    /** `pty.openpty`. */
    method OpenMaster() returns (master: nat)
      requires Valid()
      modifies this`masters
      ensures Valid() && master == old(masters) && Value() == old(Value()).(masters := master + 1)
    {
      hide State.Sound;
      ghost var before := Value();
      OpeningKeepsSound(before);
      master := masters;
      masters := masters + 1;
      assert Value().sessions == before.sessions;
    }

    lemma KeysAgree()
      ensures Value().sessions.Keys == sessions.Keys
    {}

    lemma SameSize()
      ensures |Value().sessions| == |sessions|
    {
      assert Value().sessions.Keys == sessions.Keys;
      assert |Value().sessions| == |Value().sessions.Keys| && |sessions| == |sessions.Keys|;
    }

    /** `close_session`. */
    method CloseSession(sid: string)
      requires Valid()
      modifies this, sessions.Values
      ensures Valid() && Value() == old(Value()).Close(sid)
      ensures sessions == old(sessions) - {sid}
      ensures forall s | s in old(sessions.Values) :: s.active == (old(s.active) && s.id != sid)
      ensures forall s | s in old(sessions.Values) :: s.lastActivity == old(s.lastActivity)
    {
      hide State.Sound;
      ghost var before := Value();
      if sid !in sessions { return; }
      var session := sessions[sid];
      sessions := sessions - {sid};
      session.active := false;
      closed := closed + multiset{session.fd};
      assert before.Fds({sid}) == {session.fd};
      assert multiset({session.fd}) == multiset{session.fd};
      assert Value().sessions == before.sessions - {sid};
      CloseKeepsSound(before, {sid});
    }

    /** What follows a successful read, write or resize on a session obtained earlier. */
    method Finish(session: Session, now: int)
      requires Valid() && session.fd < masters
      requires session.id in sessions && sessions[session.id].fd == session.fd ==> sessions[session.id] == session
      requires forall sid | sid in sessions && sid != session.id :: sessions[sid] != session
      modifies session`lastActivity
      ensures Valid() && Value() == old(Value()).Touch(session.id, session.fd, now)
    {
      hide State.Sound;
      ghost var before := Value();
      session.Touch(now);
      assert Value().sessions == before.Touch(session.id, session.fd, now).sessions;
      TouchKeepsSound(before, session.id, session.fd, now);
    }

    /** What follows a read that raised `OSError`: the session is marked, but stays filed. */
    method FailedRead(session: Session)
      requires Valid()
      modifies session`active
      ensures Valid() && Value() == old(Value()) && !session.active
    {
      session.active := false;
    }

    /** One round of `_reap_stale_sessions`. */
    method ReapStale(now: int)
      requires Valid()
      modifies this, sessions.Values
      ensures Valid() && Value() == old(Value()).CloseThese(old(Value()).Stale(now))
    {
      var stale := set sid | sid in sessions && now - sessions[sid].lastActivity > IDLE_TIMEOUT;
      assert stale == Value().Stale(now);
      CloseEach(stale);
    }

    /** `close_all`. */
    method CloseAll()
      requires Valid()
      modifies this, sessions.Values
      ensures Valid() && Value() == old(Value()).CloseThese(old(Value()).sessions.Keys)
    {
      assert Value().sessions.Keys == sessions.Keys;
      CloseEach(sessions.Keys);
    }

    /** The loops over a list of session ids taken beforehand. */
    method CloseEach(sids: set<string>)
      requires Valid() && sids <= sessions.Keys
      modifies this, sessions.Values
      ensures Valid() && Value() == old(Value()).CloseThese(sids)
    {
      hide State.Sound, Value, State.CloseThese, State.Close;
      ghost var before := Value();
      var left := sids;
      KeysAgree();
      CloseNone(before);
      assert sids - left == {};
      while left != {}
        invariant left <= sids <= before.sessions.Keys && before.Sound()
        invariant sessions.Values <= old(sessions.Values)
        invariant left <= sessions.Keys
        invariant Valid() && Value() == before.CloseThese(sids - left)
      {
        var sid :| sid in left;
        CloseOneMore(before, sids - left, sid);
        CloseSession(sid);
        assert sids - (left - {sid}) == (sids - left) + {sid};
        left := left - {sid};
      }
      assert sids - {} == sids;
    }
  }

  lemma OpeningKeepsSound(st: State)
    requires st.Sound()
    ensures st.(masters := st.masters + 1).Sound()
  {}

  lemma CreateIs(st: State, sid: string, now: int, max: int)
    requires |st.sessions| < max
    ensures st.Create(sid, now, max, false) == st.(masters := st.masters + 1)
    ensures st.Create(sid, now, max, true)
         == st.(sessions := st.sessions[sid := Entry(st.masters, now)], masters := st.masters + 1)
  {}

  lemma CreateKeepsSound(st: State, sid: string, now: int, max: int, forked: bool)
    requires st.Sound()
    ensures st.Create(sid, now, max, forked).Sound()
  {}

  lemma CloseKeepsSound(st: State, sids: set<string>)
    requires st.Sound() && sids <= st.sessions.Keys
    ensures st.CloseThese(sids).Sound()
  {
    var fds := st.Fds(sids);
    assert forall fd :: multiset(fds)[fd] == if fd in fds then 1 else 0;
    assert forall sid | sid in sids :: st.Open(st.sessions[sid].fd);
  }

  lemma TouchKeepsSound(st: State, sid: string, fd: nat, now: int)
    requires st.Sound()
    ensures st.Touch(sid, fd, now).Sound()
  {}

  lemma CloseNone(st: State)
    ensures st.CloseThese({}) == st
  {
    assert st.sessions - {} == st.sessions;
    assert st.Fds({}) == {};
  }

  lemma CloseOneMore(st: State, done: set<string>, sid: string)
    requires st.Sound() && done <= st.sessions.Keys && sid in st.sessions && sid !in done
    ensures st.CloseThese(done).Close(sid) == st.CloseThese(done + {sid})
  {
    var mid := st.CloseThese(done);
    assert mid.sessions - {sid} == st.sessions - (done + {sid});
    var fd := st.sessions[sid].fd;
    assert mid.Fds({sid}) == {fd};
    assert st.Fds(done + {sid}) == st.Fds(done) + {fd};
    assert fd !in st.Fds(done);
    assert multiset(st.Fds(done) + {fd}) == multiset(st.Fds(done)) + multiset({fd});
  }

  // ---------------------------------------------------------------- whole runs

  datatype Event =
    | Creation(sid: string, now: int, forked: bool)
    | Activity(sid: string, fd: nat, now: int)
    | Closing(sid: string)
    | Reaping(now: int)
    | ClosingAll

  function Step(st: State, e: Event, max: int): State {
    match e
    case Creation(sid, now, forked) => st.Create(sid, now, max, forked)
    case Activity(sid, fd, now) => st.Touch(sid, fd, now)
    case Closing(sid) => st.Close(sid)
    case Reaping(now) => st.CloseThese(st.Stale(now))
    case ClosingAll => st.CloseThese(st.sessions.Keys)
  }

  function Run(events: seq<Event>, max: int): State {
    if events == [] then INITIAL
    else Step(Run(events[..|events| - 1], max), events[|events| - 1], max)
  }

  function Bound(max: int): nat { if 0 <= max then max else 0 }

  lemma StepKeepsSound(st: State, e: Event, max: int)
    requires st.Sound()
    ensures Step(st, e, max).Sound()
    ensures |st.sessions| <= Bound(max) ==> |Step(st, e, max).sessions| <= Bound(max)
  {
    hide State.Sound, Bound, State.CloseThese, State.Stale;
    match e
    case Creation(sid, now, forked) =>
      CreateKeepsSound(st, sid, now, max, forked);
      CreateStaysBounded(st, sid, now, max, forked);
    case Activity(sid, fd, now) =>
      TouchKeepsSound(st, sid, fd, now);
      assert sid in st.sessions ==> st.sessions[sid := Entry(fd, now)].Keys == st.sessions.Keys;
    case Closing(sid) =>
      if sid in st.sessions { CloseShrinks(st, {sid}); }
    case Reaping(now) =>
      StaleAreKeys(st, now);
      CloseShrinks(st, st.Stale(now));
    case ClosingAll => CloseShrinks(st, st.sessions.Keys);
  }

  lemma CreateStaysBounded(st: State, sid: string, now: int, max: int, forked: bool)
    ensures |st.sessions| <= Bound(max) ==> |st.Create(sid, now, max, forked).sessions| <= Bound(max)
  {
    assert st.sessions[sid := Entry(st.masters, now)].Keys == st.sessions.Keys + {sid};
  }

  lemma StaleAreKeys(st: State, now: int)
    ensures st.Stale(now) <= st.sessions.Keys
  {}

  lemma CloseShrinks(st: State, sids: set<string>)
    requires st.Sound() && sids <= st.sessions.Keys
    ensures st.CloseThese(sids).Sound() && |st.CloseThese(sids).sessions| <= |st.sessions|
  {
    CloseKeepsSound(st, sids);
    FewerKeys(st.sessions - sids, st.sessions);
  }

  lemma FewerKeys(a: map<string, Entry>, b: map<string, Entry>)
    requires a.Keys <= b.Keys
    ensures |a| <= |b|
  {
    assert |b.Keys| == |a.Keys| + |b.Keys - a.Keys| by { assert b.Keys == a.Keys + (b.Keys - a.Keys); }
    assert |a| == |a.Keys| && |b| == |b.Keys|;
  }

  /** In every run, live sessions hold distinct open masters, no master is closed twice, and the number of live
      sessions stays within the maximum. */
  lemma {:induction false} RunIsSound(events: seq<Event>, max: int)
    ensures Run(events, max).Sound() && |Run(events, max).sessions| <= Bound(max)
  {
    if events != [] {
      RunIsSound(events[..|events| - 1], max);
      StepKeepsSound(Run(events[..|events| - 1], max), events[|events| - 1], max);
    }
  }

  /** A creation whose `fork` fails, or under the id of a live session. */
  predicate LosesMaster(st: State, e: Event, max: int) {
    e.Creation? && |st.sessions| < max && (!e.forked || e.sid in st.sessions)
  }

  /** A master without a session stays open for good: no step closes it or finds an owner for it. */
  lemma LeakIsForever(st: State, e: Event, max: int, fd: nat)
    requires st.Sound() && st.Open(fd) && !st.Owned(fd)
    ensures Step(st, e, max).Open(fd) && !Step(st, e, max).Owned(fd)
  {
    match e
    case Creation(sid, now, forked) =>
    case Activity(sid, f, now) =>
      assert forall a | a in st.Touch(sid, f, now).sessions :: st.Touch(sid, f, now).sessions[a].fd == st.sessions[a].fd;
    case Closing(sid) =>
      if sid in st.sessions { CloseIgnores(st, {sid}, fd); }
    case Reaping(now) => CloseIgnores(st, st.Stale(now), fd);
    case ClosingAll => CloseIgnores(st, st.sessions.Keys, fd);
  }

  lemma CloseIgnores(st: State, sids: set<string>, fd: nat)
    requires sids <= st.sessions.Keys && st.Open(fd) && !st.Owned(fd)
    ensures st.CloseThese(sids).Open(fd) && !st.CloseThese(sids).Owned(fd)
  {
    assert fd !in st.Fds(sids);
  }

  /** One step keeps the absence of leaks exactly when it loses no master. */
  lemma StepLeaks(st: State, e: Event, max: int)
    requires st.Sound() && st.NoLeak()
    ensures Step(st, e, max).NoLeak() <==> !LosesMaster(st, e, max)
  {
    hide State.Sound, State.NoLeak;
    match e
    case Creation(sid, now, forked) => CreateLeaks(st, sid, now, max, forked);
    case Activity(sid, fd, now) => TouchLeaksNothing(st, sid, fd, now);
    case Closing(sid) =>
      if sid in st.sessions { CloseLeaksNothing(st, {sid}); }
    case Reaping(now) => CloseLeaksNothing(st, st.Stale(now));
    case ClosingAll => CloseLeaksNothing(st, st.sessions.Keys);
  }

  lemma CreateLeaks(st: State, sid: string, now: int, max: int, forked: bool)
    requires st.Sound() && st.NoLeak()
    ensures st.Create(sid, now, max, forked).NoLeak() <==> !LosesMaster(st, Creation(sid, now, forked), max)
  {
    var after := st.Create(sid, now, max, forked);
    if LosesMaster(st, Creation(sid, now, forked), max) {
      var fd := if forked then st.sessions[sid].fd else st.masters;
      assert after.Open(fd) && !after.Owned(fd);
    } else if |st.sessions| < max {
      forall fd: nat | after.Open(fd) ensures after.Owned(fd) {
        if fd < st.masters {
          assert st.Open(fd);
          var a :| a in st.sessions && st.sessions[a].fd == fd;
          assert after.sessions[a].fd == fd;
        } else {
          assert after.sessions[sid].fd == fd;
        }
      }
    }
  }

  lemma TouchLeaksNothing(st: State, sid: string, f: nat, now: int)
    requires st.NoLeak()
    ensures st.Touch(sid, f, now).NoLeak()
  {
    var after := st.Touch(sid, f, now);
    forall fd: nat | after.Open(fd) ensures after.Owned(fd) {
      assert st.Open(fd);
      var a :| a in st.sessions && st.sessions[a].fd == fd;
      assert after.sessions[a].fd == fd;
    }
  }

  lemma CloseLeaksNothing(st: State, sids: set<string>)
    requires st.NoLeak() && sids <= st.sessions.Keys
    ensures st.CloseThese(sids).NoLeak()
  {
    var after := st.CloseThese(sids);
    var fds := st.Fds(sids);
    assert forall fd :: multiset(fds)[fd] == if fd in fds then 1 else 0;
    forall fd: nat | after.Open(fd) ensures after.Owned(fd) {
      assert st.Open(fd);
      var a :| a in st.sessions && st.sessions[a].fd == fd;
      assert a in sids ==> fd in fds;
      assert after.sessions[a].fd == fd;
    }
  }

  /** No `fork` ever fails and no session is ever created under the id of a live one. */
  ghost predicate NoneLost(events: seq<Event>, max: int) {
    forall k: nat | k < |events| :: !LosesMaster(Run(events[..k], max), events[k], max)
  }

  lemma FreshSoFar(events: seq<Event>, max: int)
    requires events != []
    ensures var n := |events| - 1;
            (NoneLost(events, max)
             <==> NoneLost(events[..n], max) && !LosesMaster(Run(events[..n], max), events[n], max))
  {
    hide Run, LosesMaster;
    var n := |events| - 1;
    assert forall k: nat | k < n :: events[..n][..k] == events[..k] && events[..n][k] == events[k];
  }

  /** At the end of a run every open master is held by a live session just when no `fork` ever failed and no session
      was ever created under the id of a live one. */
  lemma {:induction false} MastersAccountedFor(events: seq<Event>, max: int)
    ensures Run(events, max).NoLeak() <==> NoneLost(events, max)
  {
    hide State.Sound, State.NoLeak, LosesMaster, Step, NoneLost;
    if events == [] {
      InitialHasNoLeak();
      FreshAtFirst(max);
    } else {
      var n := |events| - 1;
      var before := Run(events[..n], max);
      MastersAccountedFor(events[..n], max);
      RunIsSound(events[..n], max);
      FreshSoFar(events, max);
      if before.NoLeak() {
        StepLeaks(before, events[n], max);
      } else {
        LeakRemains(before, events[n], max);
      }
    }
  }

  lemma FreshAtFirst(max: int)
    ensures NoneLost([], max)
  {}

  lemma InitialHasNoLeak()
    ensures INITIAL.NoLeak() && INITIAL.Sound()
  {}

  lemma LeakRemains(st: State, e: Event, max: int)
    requires st.Sound() && !st.NoLeak()
    ensures !Step(st, e, max).NoLeak()
  {
    hide State.Sound, Step;
    var fd: nat :| st.Open(fd) && !st.Owned(fd);
    LeakIsForever(st, e, max, fd);
  }

  // ---------------------------------------------------------------- single operations

  /** Reaping removes exactly the sessions idle beyond the timeout, closes their masters and no other. */
  lemma ReapIsExact(st: State, now: int)
    requires st.Sound()
    ensures var after := st.CloseThese(st.Stale(now));
            && (forall sid :: sid in after.sessions <==> sid in st.sessions && now - st.sessions[sid].last <= IDLE_TIMEOUT)
            && (forall sid | sid in after.sessions :: after.sessions[sid] == st.sessions[sid])
            && (forall sid | sid in st.sessions :: after.Open(st.sessions[sid].fd) <==> sid in after.sessions)
            && (forall fd: nat | !st.Owned(fd) :: after.Open(fd) <==> st.Open(fd))
  {
    var stale := st.Stale(now);
    var fds := st.Fds(stale);
    assert forall fd :: multiset(fds)[fd] == if fd in fds then 1 else 0;
    forall sid | sid in st.sessions ensures st.sessions[sid].fd in fds <==> sid in stale {}
  }

  /** Activity keeps a session for another 120 seconds, and so does its creation. */
  lemma ActivityCounts(st: State, sid: string, fd: nat, now: int, max: int, later: int)
    requires st.Sound()
    ensures var touched := st.Touch(sid, fd, now);
            sid in st.sessions && st.sessions[sid].fd == fd ==>
              (sid in touched.CloseThese(touched.Stale(later)).sessions <==> later <= now + 120)
    ensures forall other | other in st.sessions && (other != sid || st.sessions[other].fd != fd) ::
              other in st.Touch(sid, fd, now).sessions && st.Touch(sid, fd, now).sessions[other] == st.sessions[other]
    ensures var created := st.Create(sid, now, max, true);
            |st.sessions| < max ==>
              && sid in created.sessions && created.sessions[sid].fd == st.masters
              && (sid in created.CloseThese(created.Stale(later)).sessions <==> later <= now + 120)
  {}

  /** What each event does: a close removes its session and closes its master, a round of reaping those idle for more than
      120 seconds, and `close_all` every one; the others stay. */
  lemma EventsTakeEffect(st: State, sid: string, now: int, max: int)
    requires st.Sound()
    ensures var closed := Step(st, Closing(sid), max);
            && closed.sessions == st.sessions - {sid}
            && (sid in st.sessions ==> !closed.Open(st.sessions[sid].fd))
            && forall other | other in st.sessions && other != sid :: closed.Open(st.sessions[other].fd)
    ensures var reaped := Step(st, Reaping(now), max);
            forall s :: s in reaped.sessions <==> s in st.sessions && now - st.sessions[s].last <= 120
    ensures var empty := Step(st, ClosingAll, max);
            empty.sessions == map[] && forall s | s in st.sessions :: !empty.Open(st.sessions[s].fd)
  {
    var one, all := if sid in st.sessions then st.Fds({sid}) else {}, st.Fds(st.sessions.Keys);
    assert forall fd :: multiset(one)[fd] == if fd in one then 1 else 0;
    assert forall fd :: multiset(all)[fd] == if fd in all then 1 else 0;
    assert st.sessions - st.sessions.Keys == map[];
    assert sid !in st.sessions ==> st.sessions - {sid} == st.sessions;
    ReapIsExact(st, now);
  }

  /** Activity on a filed session changes its time and nothing else. */
  lemma ActivityTakesEffect(st: State, sid: string, now: int, max: int)
    requires sid in st.sessions
    ensures var fd := st.sessions[sid].fd;
            Step(st, Activity(sid, fd, now), max) == st.(sessions := st.sessions[sid := Entry(fd, now)])
  {}

  /** Closing a session twice is closing it once. */
  lemma CloseTwice(st: State, sid: string)
    ensures st.Close(sid).Close(sid) == st.Close(sid)
  {
    assert sid in st.sessions ==> sid !in (st.sessions - {sid});
  }

  /** After `close_all` nothing is live, and nothing is open unless it had leaked before. */
  lemma CloseAllLeavesNone(st: State)
    requires st.Sound()
    ensures var after := st.CloseThese(st.sessions.Keys);
            after.sessions == map[] && forall fd: nat :: after.Open(fd) <==> st.Open(fd) && !st.Owned(fd)
  {
    var fds := st.Fds(st.sessions.Keys);
    assert st.sessions - st.sessions.Keys == map[];
    assert forall fd :: multiset(fds)[fd] == if fd in fds then 1 else 0;
    assert forall fd :: fd in fds <==> st.Owned(fd);
  }
}
