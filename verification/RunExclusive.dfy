/** The promise chain of extensions/hwp_render_server/server.js, over an explicit promise heap and job queue. */
module RunExclusive {
  import opened Wrappers

  // The rules for promises are those of ECMA-262: PerformPromiseThen, the promise reaction job and the promise
  // resolve-thenable job, sections 27.2.5.4.1, 27.2.2.1 and 27.2.2.2.

  datatype Outcome = Fulfilled(value: int) | Rejected(error: int)

  const Undefined := 0

  /** The promises of the program: the value of `chain` after k calls, what call k returned, and what
      the task of call k returned. */
  datatype Pid = Chain(k: nat) | Next(k: nat) | Task(k: nat)

  datatype Reaction =
    | StartTask(k: nat)   // chain.then(fn, fn), deriving Next(k)
    | Recover(k: nat)     // next.catch(() => {}), deriving Chain(k + 1)
    | Notify(k: nat)      // the caller awaiting Next(k)
    | Forward(k: nat)     // the resolving functions of Next(k), attached to Task(k)

  datatype Job = React(reaction: Reaction, outcome: Outcome) | Adopt(k: nat)

  datatype Promise = Pending(reactions: seq<Reaction>) | Settled(outcome: Outcome)

  /** What calling the task function does: an async function returns a promise, others may also return a
      value or throw at once. */
  datatype Start = ReturnsPromise | ReturnsValue(value: int) | Throws(error: int)

  /** A call of `runExclusive` followed by the caller's `await`, running the next job of the queue, or a started
      task settling its own promise. Any sequence of actions is an execution. */
  datatype Action = Call | RunJob(start: Start) | TaskSettles(outcome: Outcome)

  datatype State = State(
    heap: map<Pid, Promise>,
    jobs: seq<Job>,
    chain: Pid,
    calls: nat,
    recovered: nat,              // history: chain promises settled by a catch
    started: seq<nat>,           // history: tasks in the order they were started
    outcomes: seq<Outcome>,      // history: what the started tasks came to, in order
    delivered: seq<(nat, Outcome)>)  // history: what each caller's `await` yielded

  const Init := State(map[Chain(0) := Settled(Fulfilled(Undefined))], [], Chain(0), 0, 0, [], [], [])

  // ---------------------------------------------------------------- promises

  /** `p.then(...)` with one reaction. */
  function Then(s: State, p: Pid, r: Reaction): State
    requires p in s.heap
  {
    match s.heap[p]
    case Pending(rs) => s.(heap := s.heap[p := Pending(rs + [r])])
    case Settled(o) => s.(jobs := s.jobs + [React(r, o)])
  }

  function Trigger(rs: seq<Reaction>, o: Outcome): seq<Job> {
    seq(|rs|, i requires 0 <= i < |rs| => React(rs[i], o))
  }

  /** Fulfilling or rejecting a promise; a settled promise stays as it is. */
  function Settle(s: State, p: Pid, o: Outcome): State
    requires p in s.heap
  {
    match s.heap[p]
    case Pending(rs) => s.(heap := s.heap[p := Settled(o)], jobs := s.jobs + Trigger(rs, o))
    case Settled(_) => s
  }

  function New(s: State, p: Pid): State { s.(heap := s.heap[p := Pending([])]) }

  // ---------------------------------------------------------------- the program

  /** `runExclusive(fn)` and the `await` of its result. */
  function RunExclusiveCall(s: State): State
    requires s.chain in s.heap
  {
    var k := s.calls;
    var s1 := Then(New(s, Next(k)), s.chain, StartTask(k));
    if Next(k) !in s1.heap then s else
    var s2 := Then(New(s1, Chain(k + 1)), Next(k), Recover(k));
    if Next(k) !in s2.heap then s else
    Then(s2, Next(k), Notify(k)).(chain := Chain(k + 1), calls := k + 1)
  }

  function RunReaction(s: State, r: Reaction, o: Outcome, start: Start): Option<State> {
    match r
    case StartTask(k) =>
      if Next(k) !in s.heap then None
      else
        var s1 := s.(started := s.started + [k]);
        (match start
         case ReturnsPromise => Some(New(s1, Task(k)).(jobs := s1.jobs + [Adopt(k)]))
         case ReturnsValue(v) => Some(Settle(s1.(outcomes := s1.outcomes + [Fulfilled(v)]), Next(k), Fulfilled(v)))
         case Throws(e) => Some(Settle(s1.(outcomes := s1.outcomes + [Rejected(e)]), Next(k), Rejected(e))))
    case Forward(k) => if Next(k) !in s.heap then None else Some(Settle(s, Next(k), o))
    case Recover(k) =>
      if Chain(k + 1) !in s.heap then None
      else
        var passed := if o.Fulfilled? then o else Fulfilled(Undefined);
        Some(Settle(s, Chain(k + 1), passed).(recovered := s.recovered + 1))
    case Notify(k) => Some(s.(delivered := s.delivered + [(k, o)]))
  }

  function Step(s: State, a: Action): Option<State> {
    match a
    case Call => if s.chain in s.heap then Some(RunExclusiveCall(s)) else None
    case RunJob(start) =>
      if s.jobs == [] then None
      else
        var s1 := s.(jobs := s.jobs[1..]);
        (match s.jobs[0]
         case React(r, o) => RunReaction(s1, r, o, start)
         case Adopt(k) => if Task(k) in s1.heap then Some(Then(s1, Task(k), Forward(k))) else None)
    case TaskSettles(o) =>
      var k := Running(s);
      if k.Some? && Task(k.value) in s.heap
      then Some(Settle(s.(outcomes := s.outcomes + [o]), Task(k.value), o)) else None
  }

  /** The task that has been started and has not come to an outcome. */
  function Running(s: State): Option<nat> {
    if |s.outcomes| < |s.started| then Some(s.started[|s.outcomes|]) else None
  }

  /** The outcome that an action supplies for the task it settles, if any. */
  function Supplied(s: State, a: Action): seq<Outcome> {
    match a
    case Call => []
    case TaskSettles(o) => [o]
    case RunJob(start) =>
      if s.jobs == [] || !s.jobs[0].React? || !s.jobs[0].reaction.StartTask? then []
      else
        match start
        case ReturnsPromise => []
        case ReturnsValue(v) => [Fulfilled(v)]
        case Throws(e) => [Rejected(e)]
  }

  /** The outcomes supplied in a run, in order. */
  function SuppliedIn(s: State, actions: seq<Action>): seq<Outcome>
    decreases |actions|
  {
    if actions == [] then []
    else
      match Step(s, actions[0])
      case None => []
      case Some(next) => Supplied(s, actions[0]) + SuppliedIn(next, actions[1..])
  }

  lemma StepTakesOutcome(s: State, a: Action)
    requires Step(s, a).Some?
    ensures Step(s, a).value.outcomes == s.outcomes + Supplied(s, a)
  {}

  /** The outcomes of the tasks are those that the actions of the run carry, in order. */
  lemma {:induction false} OutcomesAreSupplied(s: State, actions: seq<Action>)
    requires Run(s, actions).Some?
    ensures Run(s, actions).value.outcomes == s.outcomes + SuppliedIn(s, actions)
    decreases |actions|
  {
    hide Step, Supplied;
    if actions != [] {
      StepTakesOutcome(s, actions[0]);
      OutcomesAreSupplied(Step(s, actions[0]).value, actions[1..]);
    }
  }

  function Run(s: State, actions: seq<Action>): Option<State>
    decreases |actions|
  {
    if actions == [] then Some(s)
    else
      match Step(s, actions[0])
      case None => None
      case Some(next) => Run(next, actions[1..])
  }

  // ---------------------------------------------------------------- the invariant

  predicate IsNotify(j: Job) { j.React? && j.reaction.Notify? }

  /** The jobs that drive the chain, and the jobs that resume callers, in queue order. */
  function Spine(jobs: seq<Job>): seq<Job> { Select(jobs, false) }

  function Notices(jobs: seq<Job>): seq<Job> { Select(jobs, true) }

  function Select(jobs: seq<Job>, notices: bool): seq<Job> {
    if jobs == [] then []
    else if IsNotify(jobs[0]) == notices then [jobs[0]] + Select(jobs[1..], notices)
    else Select(jobs[1..], notices)
  }

  lemma {:induction false} SelectConcat(a: seq<Job>, b: seq<Job>, notices: bool)
    ensures Select(a + b, notices) == Select(a, notices) + Select(b, notices)
  {
    if a == [] {
      assert a + b == b;
      assert Select(a, notices) + Select(b, notices) == Select(b, notices);
    } else {
      SelectConcat(a[1..], b, notices);
      assert (a + b)[1..] == a[1..] + b;
      var rest, tail := Select(a[1..], notices), Select(b, notices);
      assert [a[0]] + (rest + tail) == ([a[0]] + rest) + tail;
    }
  }

  lemma FilterConcat(a: seq<Job>, b: seq<Job>)
    ensures Spine(a + b) == Spine(a) + Spine(b) && Notices(a + b) == Notices(a) + Notices(b)
  {
    SelectConcat(a, b, false);
    SelectConcat(a, b, true);
  }

  /** The effect on both views of appending one job, and of taking the first one. */
  lemma FilterSnoc(jobs: seq<Job>, j: Job)
    ensures Spine(jobs + [j]) == Spine(jobs) + (if IsNotify(j) then [] else [j])
    ensures Notices(jobs + [j]) == Notices(jobs) + (if IsNotify(j) then [j] else [])
  {
    FilterConcat(jobs, [j]);
    assert [j][1..] == [];
    assert Select([j], IsNotify(j)) == [j] + Select([], IsNotify(j));
    assert Select([j], !IsNotify(j)) == Select([], !IsNotify(j));
  }

  lemma FilterHead(jobs: seq<Job>)
    requires jobs != []
    ensures Spine(jobs) == (if IsNotify(jobs[0]) then [] else [jobs[0]]) + Spine(jobs[1..])
    ensures Notices(jobs) == (if IsNotify(jobs[0]) then [jobs[0]] else []) + Notices(jobs[1..])
  {}

  /** The calls whose own promise has settled. */
  function Resolved(s: State): nat {
    if Next(s.recovered) in s.heap && s.heap[Next(s.recovered)].Settled? then s.recovered + 1 else s.recovered
  }

  /** Call k is waiting for its turn: nothing of it has happened. */
  ghost predicate Untouched(s: State, k: nat) {
    && Next(k) in s.heap && s.heap[Next(k)] == Pending([Recover(k), Notify(k)])
    && Task(k) !in s.heap
  }

  ghost predicate Waiting(s: State, k: nat) {
    && Untouched(s, k)
    && Chain(k) in s.heap && s.heap[Chain(k)] == Pending([StartTask(k)])
  }

  /** The call whose turn it is. */
  ghost predicate Current(s: State, k: nat) {
    var spine := Spine(s.jobs);
    && Next(k) in s.heap && Chain(k) in s.heap && s.heap[Chain(k)].Settled?
    && match s.heap[Next(k)]
       case Settled(o) =>
         && |s.started| == k + 1 == |s.outcomes| && s.outcomes[k] == o
         && spine == [React(Recover(k), o)]
       case Pending(rs) =>
         && rs == [Recover(k), Notify(k)]
         && if Task(k) !in s.heap then
              && |s.started| == k == |s.outcomes|
              && spine == [React(StartTask(k), s.heap[Chain(k)].outcome)]
            else
              && |s.started| == k + 1
              && match s.heap[Task(k)]
                 case Pending(ts) =>
                   && |s.outcomes| == k
                   && ((ts == [] && spine == [Adopt(k)]) || (ts == [Forward(k)] && spine == []))
                 case Settled(o) =>
                   && |s.outcomes| == k + 1 && s.outcomes[k] == o
                   && (spine == [Adopt(k)] || spine == [React(Forward(k), o)])
  }

  ghost predicate SettledPrefix(s: State) {
    forall k | 0 <= k <= s.recovered ::
      Chain(k) in s.heap && s.heap[Chain(k)].Settled? && s.heap[Chain(k)].outcome.Fulfilled?
  }

  ghost predicate WaitingRest(s: State) {
    forall k | s.recovered < k < s.calls :: Waiting(s, k)
  }

  ghost predicate NothingBeyond(s: State) {
    && (forall k: nat | k >= s.calls :: Next(k) !in s.heap && Task(k) !in s.heap)
    && (forall k: nat | k > s.calls :: Chain(k) !in s.heap)
  }

  ghost predicate Turn(s: State) {
    if s.recovered == s.calls then
      Spine(s.jobs) == [] && |s.started| == s.calls == |s.outcomes|
    else
      && s.chain in s.heap && s.heap[s.chain] == Pending([])
      && Current(s, s.recovered)
  }

  ghost predicate ChainOk(s: State) {
    && s.recovered <= s.calls && s.chain == Chain(s.calls)
    && SettledPrefix(s) && WaitingRest(s) && NothingBeyond(s) && Turn(s)
  }

  ghost predicate StartedInOrder(s: State) {
    forall i | 0 <= i < |s.started| :: s.started[i] == i
  }

  /** The jobs that will resume the callers from `from` to `to`. */
  ghost function NoticesFor(outcomes: seq<Outcome>, from: nat, to: nat): seq<Job>
    requires from <= to <= |outcomes|
  {
    seq(to - from, i requires 0 <= i < to - from => React(Notify(from + i), outcomes[from + i]))
  }

  ghost predicate DeliveriesOk(s: State) {
    && |s.delivered| <= Resolved(s) <= |s.outcomes|
    && (forall i | 0 <= i < |s.delivered| :: s.delivered[i] == (i, s.outcomes[i]))
    && Notices(s.jobs) == NoticesFor(s.outcomes, |s.delivered|, Resolved(s))
  }

  ghost predicate Inv(s: State) {
    ChainOk(s) && StartedInOrder(s) && DeliveriesOk(s)
  }

  lemma CallEffect(s: State)
    requires Inv(s)
    ensures var next := RunExclusiveCall(s);
            var k := s.calls;
            var idle := s.recovered == s.calls;
            && next.heap == s.heap[Next(k) := Pending([Recover(k), Notify(k)])][Chain(k + 1) := Pending([])]
                 [Chain(k) := if idle then s.heap[Chain(k)] else Pending([StartTask(k)])]
            && next.jobs == s.jobs + (if idle then [React(StartTask(k), s.heap[Chain(k)].outcome)] else [])
            && next.chain == Chain(k + 1) && next.calls == k + 1
            && next.recovered == s.recovered && next.started == s.started
            && next.outcomes == s.outcomes && next.delivered == s.delivered
  {
    assert [] + [StartTask(s.calls)] == [StartTask(s.calls)];
    assert [] + [Recover(s.calls)] + [Notify(s.calls)] == [Recover(s.calls), Notify(s.calls)];
  }

  lemma CallKeepsInv(s: State)
    requires Inv(s)
    ensures Inv(RunExclusiveCall(s))
  {
    hide RunExclusiveCall;
    CallEffect(s);
    var k := s.calls;
    var next := RunExclusiveCall(s);
    if s.recovered == s.calls {
      FilterSnoc(s.jobs, React(StartTask(k), s.heap[Chain(k)].outcome));
    } else {
      assert next.jobs == s.jobs;
      assert Current(next, s.recovered);
    }
    assert Resolved(next) == Resolved(s);
    forall j | next.recovered < j < next.calls ensures Waiting(next, j) {
      if j < k { assert Waiting(s, j); }
    }
  }

  lemma RunningIsCurrent(s: State)
    requires Inv(s) && |s.outcomes| < |s.started|
    ensures s.recovered < s.calls && Running(s) == Some(s.recovered) && |s.outcomes| == s.recovered
    ensures Task(s.recovered) in s.heap && s.heap[Task(s.recovered)].Pending?
    ensures Next(s.recovered) in s.heap && s.heap[Next(s.recovered)] == Pending([Recover(s.recovered), Notify(s.recovered)])
  {
    hide Spine, Waiting, WaitingRest, NothingBeyond, SettledPrefix, DeliveriesOk;
    assert s.recovered < s.calls;
    assert Current(s, s.recovered);
  }

  lemma TaskSettlesKeepsInv(s: State, o: Outcome)
    requires Inv(s) && Step(s, TaskSettles(o)).Some?
    ensures Inv(Step(s, TaskSettles(o)).value)
  {
    RunningIsCurrent(s);
    var k := s.recovered;
    var next := Step(s, TaskSettles(o)).value;
    var rs := s.heap[Task(k)].reactions;
    assert Current(s, k);
    if rs == [] {
      assert next.jobs == s.jobs + [] == s.jobs;
    } else {
      assert next.jobs == s.jobs + [React(Forward(k), o)];
      FilterSnoc(s.jobs, React(Forward(k), o));
    }
    assert Resolved(next) == Resolved(s) == k;
    assert Current(next, k);
    forall j | k < j < s.calls ensures Waiting(next, j) { assert Waiting(s, j); }
    assert NoticesFor(next.outcomes, |s.delivered|, k) == NoticesFor(s.outcomes, |s.delivered|, k);
  }

  // ---------------------------------------------------------------- running a job

  /** A caller is resumed: with the outcome of its own task, and in call order. */
  lemma NotifyKeepsInv(s: State, start: Start)
    requires Inv(s) && s.jobs != [] && IsNotify(s.jobs[0])
    ensures Step(s, RunJob(start)).Some? && Inv(Step(s, RunJob(start)).value)
  {
    var next := Step(s, RunJob(start)).value;
    FilterHead(s.jobs);
    var d := |s.delivered|;
    assert Notices(s.jobs)[0] == s.jobs[0] == React(Notify(d), s.outcomes[d]);
    assert Resolved(next) == Resolved(s);
    assert Notices(next.jobs) == NoticesFor(s.outcomes, d + 1, Resolved(s)) by {
      assert Notices(next.jobs) == Notices(s.jobs)[1..];
    }
    if s.recovered < s.calls { assert Current(next, s.recovered); }
    forall j | s.recovered < j < s.calls ensures Waiting(next, j) { assert Waiting(s, j); }
  }

  /** Everything but the stage of the current call, which has no job queued. */
  ghost predicate Between(s: State) {
    var c := s.recovered;
    && c < s.calls && s.chain == Chain(s.calls)
    && s.chain in s.heap && s.heap[s.chain] == Pending([])
    && SettledPrefix(s) && WaitingRest(s) && NothingBeyond(s) && StartedInOrder(s) && DeliveriesOk(s)
    && Spine(s.jobs) == []
    && Next(c) in s.heap && s.heap[Next(c)] == Pending([Recover(c), Notify(c)])
  }

  lemma SpineJob(s: State)
    requires Inv(s) && s.jobs != [] && !IsNotify(s.jobs[0])
    ensures s.recovered < s.calls && Current(s, s.recovered) && Spine(s.jobs) == [s.jobs[0]]
    ensures var s1 := s.(jobs := s.jobs[1..]);
            && Spine(s1.jobs) == [] && DeliveriesOk(s1) && SettledPrefix(s1) && WaitingRest(s1) && NothingBeyond(s1)
            && (s.heap[Next(s.recovered)].Pending? ==> Between(s1))
  {
    FilterHead(s.jobs);
    assert Spine(s.jobs) != [];
    var s1 := s.(jobs := s.jobs[1..]);
    assert |Spine(s.jobs)| == 1;
    assert Notices(s1.jobs) == Notices(s.jobs);
    assert Resolved(s1) == Resolved(s);
    forall j | s.recovered < j < s.calls ensures Waiting(s1, j) { assert Waiting(s, j); }
  }

  lemma NoticesSnoc(outcomes: seq<Outcome>, from: nat, to: nat)
    requires from <= to < |outcomes|
    ensures NoticesFor(outcomes, from, to + 1) == NoticesFor(outcomes, from, to) + [React(Notify(to), outcomes[to])]
  {}

  /** Settling what call c returned queues its catch first and its caller second. */
  lemma NextSettles(s: State, o: Outcome)
    requires Between(s) && |s.started| == s.recovered + 1 == |s.outcomes| && s.outcomes[s.recovered] == o
    ensures Inv(Settle(s, Next(s.recovered), o))
  {
    var c := s.recovered;
    var next := Settle(s, Next(c), o);
    assert Trigger([Recover(c), Notify(c)], o) == [React(Recover(c), o)] + [React(Notify(c), o)];
    assert next.jobs == (s.jobs + [React(Recover(c), o)]) + [React(Notify(c), o)];
    FilterSnoc(s.jobs, React(Recover(c), o));
    FilterSnoc(s.jobs + [React(Recover(c), o)], React(Notify(c), o));
    assert Resolved(s) == c && Resolved(next) == c + 1;
    NoticesSnoc(s.outcomes, |s.delivered|, c);
    forall j | c < j < s.calls ensures Waiting(next, j) { assert Waiting(s, j); }
  }

  lemma StartKeepsInv(s: State, start: Start, k: nat, o: Outcome)
    requires Inv(s) && s.jobs != [] && s.jobs[0] == React(StartTask(k), o)
    ensures Step(s, RunJob(start)).Some? && Inv(Step(s, RunJob(start)).value)
    ensures k == |s.started| == |s.outcomes|
  {
    SpineJob(s);
    var c := s.recovered;
    var s1 := s.(jobs := s.jobs[1..]);
    var s2 := s1.(started := s1.started + [c]);
    match start
    case ReturnsPromise =>
      var next := Step(s, RunJob(start)).value;
      FilterSnoc(s1.jobs, Adopt(c));
      assert Resolved(next) == Resolved(s);
      forall j | c < j < s.calls ensures Waiting(next, j) { assert Waiting(s, j); }
    case ReturnsValue(v) => SyncOutcome(s1, Fulfilled(v));
    case Throws(e) => SyncOutcome(s1, Rejected(e));
  }

  lemma SyncOutcome(s: State, o: Outcome)
    requires Between(s) && |s.started| == s.recovered == |s.outcomes|
    ensures var c := s.recovered;
            Inv(Settle(s.(started := s.started + [c], outcomes := s.outcomes + [o]), Next(c), o))
  {
    var c := s.recovered;
    var s2 := s.(started := s.started + [c], outcomes := s.outcomes + [o]);
    assert Resolved(s2) == Resolved(s) == c;
    assert NoticesFor(s2.outcomes, |s.delivered|, c) == NoticesFor(s.outcomes, |s.delivered|, c);
    forall j | c < j < s.calls ensures Waiting(s2, j) { assert Waiting(s, j); }
    NextSettles(s2, o);
  }

  lemma AdoptKeepsInv(s: State, start: Start, k: nat)
    requires Inv(s) && s.jobs != [] && s.jobs[0] == Adopt(k)
    ensures Step(s, RunJob(start)).Some? && Inv(Step(s, RunJob(start)).value)
  {
    SpineJob(s);
    var c := s.recovered;
    var s1 := s.(jobs := s.jobs[1..]);
    var next := Step(s, RunJob(start)).value;
    match s.heap[Task(c)]
    case Pending(rs) =>
      assert [] + [Forward(c)] == [Forward(c)];
      assert next.heap == s.heap[Task(c) := Pending([Forward(c)])];
      assert Resolved(next) == Resolved(s);
      forall j | c < j < s.calls ensures Waiting(next, j) { assert Waiting(s, j); }
    case Settled(o) =>
      FilterSnoc(s1.jobs, React(Forward(c), o));
      assert Resolved(next) == Resolved(s);
      forall j | c < j < s.calls ensures Waiting(next, j) { assert Waiting(s, j); }
  }

  lemma ForwardKeepsInv(s: State, start: Start, k: nat, o: Outcome)
    requires Inv(s) && s.jobs != [] && s.jobs[0] == React(Forward(k), o)
    ensures Step(s, RunJob(start)).Some? && Inv(Step(s, RunJob(start)).value)
  {
    SpineJob(s);
    NextSettles(s.(jobs := s.jobs[1..]), o);
  }

  /** The catch settles the next chain promise, always as fulfilled, and so starts the next task. */
  lemma RecoverKeepsInv(s: State, start: Start)
    requires Inv(s) && s.jobs != [] && s.jobs[0].React? && s.jobs[0].reaction.Recover?
    ensures Step(s, RunJob(start)).Some? && Inv(Step(s, RunJob(start)).value)
  {
    SpineJob(s);
    var c, o := s.recovered, s.jobs[0].outcome;
    var s1 := s.(jobs := s.jobs[1..]);
    if c + 1 < s.calls { assert Waiting(s, c + 1); }
    var next := Step(s, RunJob(start)).value;
    var passed := if o.Fulfilled? then o else Fulfilled(Undefined);
    if c + 1 == s.calls {
      assert next.jobs == s1.jobs + [] == s1.jobs;
    } else {
      assert next.jobs == s1.jobs + [React(StartTask(c + 1), passed)];
      FilterSnoc(s1.jobs, React(StartTask(c + 1), passed));
    }
    assert Resolved(next) == c + 1 == Resolved(s);
    forall j | c + 1 < j < s.calls ensures Waiting(next, j) { assert Waiting(s, j); }
  }

  /** Every queued job can run. */
  lemma JobsNeverFail(s: State, start: Start)
    requires Inv(s) && s.jobs != []
    ensures Step(s, RunJob(start)).Some?
  {
    hide Step, Inv;
    match s.jobs[0]
    case Adopt(k) => AdoptKeepsInv(s, start, k);
    case React(r, o) =>
      match r
      case StartTask(k) => StartKeepsInv(s, start, k, o);
      case Forward(k) => ForwardKeepsInv(s, start, k, o);
      case Recover(k) => RecoverKeepsInv(s, start);
      case Notify(k) => NotifyKeepsInv(s, start);
  }

  lemma StepKeepsInv(s: State, a: Action)
    requires Inv(s) && Step(s, a).Some?
    ensures Inv(Step(s, a).value)
  {
    if a.RunJob? { assert s.jobs != []; }
    hide Step, Inv;
    match a
    case Call => CallKeepsInv(s);
    case TaskSettles(o) => TaskSettlesKeepsInv(s, o);
    case RunJob(start) =>
      match s.jobs[0]
      case Adopt(k) => AdoptKeepsInv(s, start, k);
      case React(r, o) =>
        match r
        case StartTask(k) => StartKeepsInv(s, start, k, o);
        case Forward(k) => ForwardKeepsInv(s, start, k, o);
        case Recover(k) => RecoverKeepsInv(s, start);
        case Notify(k) => NotifyKeepsInv(s, start);
  }

  lemma InitOk()
    ensures Inv(Init)
  {}

  lemma {:induction false} RunKeepsInv(s: State, actions: seq<Action>)
    requires Inv(s) && Run(s, actions).Some?
    ensures Inv(Run(s, actions).value)
    decreases |actions|
  {
    if actions != [] {
      StepKeepsInv(s, actions[0]);
      RunKeepsInv(Step(s, actions[0]).value, actions[1..]);
    }
  }

  // ---------------------------------------------------------------- refinement of a FIFO mutex

  /** The specification: holders are admitted one at a time in order of arrival, and each leaves with
      an outcome. */
  datatype Mutex = Mutex(arrived: nat, admitted: nat, left: seq<Outcome>)

  ghost predicate Arrive(m: Mutex, n: Mutex) { n == m.(arrived := m.arrived + 1) }

  /** Only the longest-waiting arrival can be admitted, and only when nobody is inside. */
  ghost predicate Admit(m: Mutex, n: Mutex) {
    m.admitted == |m.left| && m.admitted < m.arrived && n == m.(admitted := m.admitted + 1)
  }

  ghost predicate Leave(m: Mutex, n: Mutex, o: Outcome) {
    |m.left| < m.admitted && n == m.(left := m.left + [o])
  }

  /** Admitted and out again in one go, as a task that returns a plain value or throws. */
  ghost predicate Pass(m: Mutex, n: Mutex) {
    exists mid, o :: Admit(m, mid) && Leave(mid, n, o)
  }

  ghost predicate MutexStep(m: Mutex, n: Mutex) {
    m == n || Arrive(m, n) || Admit(m, n) || Pass(m, n) || exists o :: Leave(m, n, o)
  }

  function Abs(s: State): Mutex { Mutex(s.calls, |s.started|, s.outcomes) }

  /** Every step of the promise machinery is a step of the FIFO mutex or invisible to it. */
  lemma StepRefines(s: State, a: Action)
    requires Inv(s) && Step(s, a).Some?
    ensures MutexStep(Abs(s), Abs(Step(s, a).value))
  {
    var next := Step(s, a).value;
    match a
    case Call =>
      CallEffect(s);
      assert Arrive(Abs(s), Abs(next));
    case TaskSettles(o) => assert Leave(Abs(s), Abs(next), o);
    case RunJob(start) =>
      match s.jobs[0]
      case Adopt(k) =>
      case React(r, o) =>
        if r.StartTask? {
          StartKeepsInv(s, start, r.k, o);
          SpineJob(s);
          var mid := Abs(s).(admitted := |s.started| + 1);
          assert Admit(Abs(s), mid);
          match start
          case ReturnsPromise =>
          case ReturnsValue(v) => assert Leave(mid, Abs(next), Fulfilled(v));
          case Throws(e) => assert Leave(mid, Abs(next), Rejected(e));
        }
  }

  /** In every execution: tasks are started in call order; at most one is unfinished; no chain promise is
      ever rejected; every caller that has been resumed got the outcome of its own task, once, in call order. */
  lemma ExclusiveInOrder(actions: seq<Action>)
    requires Run(Init, actions).Some?
    ensures var s := Run(Init, actions).value;
            && (forall i | 0 <= i < |s.started| :: s.started[i] == i)
            && |s.outcomes| <= |s.started| <= |s.outcomes| + 1
            && (forall k: nat | Chain(k) in s.heap && s.heap[Chain(k)].Settled? :: s.heap[Chain(k)].outcome.Fulfilled?)
            && |s.delivered| <= |s.outcomes|
            && (forall i | 0 <= i < |s.delivered| :: s.delivered[i] == (i, s.outcomes[i]))
  {
    InitOk();
    RunKeepsInv(Init, actions);
    var s := Run(Init, actions).value;
    if s.recovered < s.calls { assert Current(s, s.recovered); }
    forall k: nat | Chain(k) in s.heap && s.heap[Chain(k)].Settled? ensures s.heap[Chain(k)].outcome.Fulfilled? {
      assert s.recovered < k < s.calls ==> Waiting(s, k);
    }
  }

  /** Nobody is forgotten: when the queue has drained and no task is running, every call ever made has
      started its task and every caller has been resumed, whichever of the tasks were rejected. */
  lemma QuietMeansDone(actions: seq<Action>)
    requires Run(Init, actions).Some?
    requires var s := Run(Init, actions).value; s.jobs == [] && Running(s).None?
    ensures var s := Run(Init, actions).value;
            |s.started| == s.calls == |s.outcomes| == |s.delivered|
  {
    InitOk();
    RunKeepsInv(Init, actions);
    var s := Run(Init, actions).value;
    assert Spine(s.jobs) == [] && Notices(s.jobs) == [];
    assert s.recovered == s.calls;
    assert |NoticesFor(s.outcomes, |s.delivered|, Resolved(s))| == 0;
    assert Next(s.calls) !in s.heap;
  }
}
