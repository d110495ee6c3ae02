/** Double-checked model loading of extensions/embedding_server/engine.py, as a step system with any number of callers
    and names. */
module ModelLoading {
  import opened Wrappers

  type Name = string
  type LockId = nat
  type Model = nat

  /** Every call of `_load` is a caller with its own program counter. */
  datatype Phase =
    | FastCheck(name: Name)                                      // the unlocked look-up
    | WantRegistry(name: Name)                                   // entering `_lock_for`
    | InRegistry(name: Name)                                     // holds `_registry_lock`
    | LeaveRegistry(name: Name, lock: LockId)                    // `setdefault` done, still holding it
    | WantLock(name: Name, lock: LockId)
    | SecondCheck(name: Name, lock: LockId)                      // holds the lock of the name
    | Building(name: Name, lock: LockId)                         // inside `_build_model`
    | Storing(name: Name, lock: LockId, model: Model)
    | Releasing(name: Name, lock: LockId, result: Option<Model>) // no result: the build raised
    | Returned(name: Name, model: Model)
    | Raised(name: Name)

  predicate HasLockId(p: Phase) {
    p.LeaveRegistry? || p.WantLock? || HoldsLock(p)
  }

  /** Inside `with _lock_for(name)`. */
  predicate HoldsLock(p: Phase) {
    p.SecondCheck? || p.Building? || p.Storing? || p.Releasing?
  }

  predicate HoldsRegistry(p: Phase) { p.InRegistry? || p.LeaveRegistry? }

  predicate Finished(p: Phase) { p.Returned? || p.Raised? }

  datatype State = State(
    models: map<Name, Model>,
    locks: map<Name, LockId>,
    created: nat,                    // lock objects created so far
    registry: Option<nat>,           // the caller holding `_registry_lock`
    owner: map<LockId, nat>,         // the caller holding each held lock
    callers: seq<Phase>,
    stores: seq<(Name, Model)>)      // history: every assignment to `_models`

  /** One action lets one caller take one atomic step: a dict operation, taking or releasing a lock, the outcome of a
      build. Any sequence of actions is an interleaving. */
  datatype Action = Call(name: Name) | Advance(t: nat) | BuildOk(t: nat, model: Model) | BuildFail(t: nat)

  const Init := State(map[], map[], 0, None, map[], [], [])

  function At(s: State, t: nat, p: Phase): State
    requires t < |s.callers|
  {
    s.(callers := s.callers[t := p])
  }

  /** One atomic step; None when the action is not possible now. */
  function Step(s: State, a: Action): Option<State> {
    match a
    case Call(n) => Some(s.(callers := s.callers + [FastCheck(n)]))
    case BuildOk(t, m) =>
      if t < |s.callers| && s.callers[t].Building?
      then Some(At(s, t, Storing(s.callers[t].name, s.callers[t].lock, m))) else None
    case BuildFail(t) =>
      if t < |s.callers| && s.callers[t].Building?
      then Some(At(s, t, Releasing(s.callers[t].name, s.callers[t].lock, None))) else None
    case Advance(t) => if t < |s.callers| then AdvanceCaller(s, t, s.callers[t]) else None
  }

  function AdvanceCaller(s: State, t: nat, p: Phase): Option<State>
    requires t < |s.callers| && p == s.callers[t]
  {
    match p
    case FastCheck(n) =>
      Some(At(s, t, if n in s.models then Returned(n, s.models[n]) else WantRegistry(n)))
    case WantRegistry(n) =>
      if s.registry.None? then Some(At(s, t, InRegistry(n)).(registry := Some(t))) else None
    case InRegistry(n) =>
      // the argument of `setdefault` creates a lock whether it is needed or not
      var locks := if n in s.locks then s.locks else s.locks[n := s.created];
      Some(At(s, t, LeaveRegistry(n, locks[n])).(locks := locks, created := s.created + 1))
    case LeaveRegistry(n, l) => Some(At(s, t, WantLock(n, l)).(registry := None))
    case WantLock(n, l) =>
      if l !in s.owner then Some(At(s, t, SecondCheck(n, l)).(owner := s.owner[l := t])) else None
    case SecondCheck(n, l) =>
      Some(At(s, t, if n in s.models then Releasing(n, l, Some(s.models[n])) else Building(n, l)))
    case Storing(n, l, m) =>
      Some(At(s, t, Releasing(n, l, Some(m))).(models := s.models[n := m], stores := s.stores + [(n, m)]))
    case Releasing(n, l, r) =>
      Some(At(s, t, if r.Some? then Returned(n, r.value) else Raised(n)).(owner := s.owner - {l}))
    case Building(_, _) => None
    case Returned(_, _) => None
    case Raised(_) => None
  }

  function Run(s: State, actions: seq<Action>): Option<State>
    decreases |actions|
  {
    if actions == [] then Some(s)
    else
      match Step(s, actions[0])
      case None => None
      case Some(next) => Run(next, actions[1..])
  }

  // ---------------------------------------------------------------- the invariant

  ghost predicate LocksDistinct(s: State) {
    && (forall n | n in s.locks :: s.locks[n] < s.created)
    && (forall n, k | n in s.locks && k in s.locks && s.locks[n] == s.locks[k] :: n == k)
  }

  ghost predicate CallerOk(s: State, t: nat)
    requires t < |s.callers|
  {
    var p := s.callers[t];
    && (HasLockId(p) ==> p.name in s.locks && s.locks[p.name] == p.lock)
    && (HoldsLock(p) ==> p.lock in s.owner && s.owner[p.lock] == t)
    && (HoldsRegistry(p) ==> s.registry == Some(t))
    && KnowsCache(s.models, p)
  }

  /** What a caller knows of the cache at this point. */
  ghost predicate KnowsCache(models: map<Name, Model>, p: Phase) {
    match p
    case Building(n, _) => n !in models
    case Storing(n, _, _) => n !in models
    case Releasing(n, _, Some(m)) => n in models && models[n] == m
    case Releasing(n, _, None) => n !in models
    case Returned(n, m) => n in models && models[n] == m
    case _ => true
  }

  /** A step moves one caller, to a phase nearer to its end. */
  lemma StepMoves(s: State, a: Action)
    requires !a.Call? && Step(s, a).Some?
    ensures var next := Step(s, a).value;
            && a.t < |s.callers| == |next.callers|
            && next.callers == s.callers[a.t := next.callers[a.t]]
            && next.callers[a.t].name == s.callers[a.t].name
            && Rank(next.callers[a.t]) < Rank(s.callers[a.t])
  {}

  /** The assignments made so far are to distinct names, and the cache is what they put there. */
  ghost predicate StoresOk(models: map<Name, Model>, stores: seq<(Name, Model)>) {
    && (forall n | n in models :: exists i | 0 <= i < |stores| :: stores[i].0 == n)
    && (forall i | 0 <= i < |stores| :: stores[i].0 in models && models[stores[i].0] == stores[i].1)
    && (forall i, j | 0 <= i < j < |stores| :: stores[i].0 != stores[j].0)
  }

  ghost predicate HoldersExist(s: State) {
    && (forall l | l in s.owner ::
          l < s.created && s.owner[l] < |s.callers| && HoldsLock(s.callers[s.owner[l]]) && s.callers[s.owner[l]].lock == l)
    && (s.registry.Some? ==> s.registry.value < |s.callers| && HoldsRegistry(s.callers[s.registry.value]))
  }

  ghost predicate Inv(s: State) {
    && LocksDistinct(s)
    && StoresOk(s.models, s.stores)
    && HoldersExist(s)
    && forall t | 0 <= t < |s.callers| :: CallerOk(s, t)
  }

  lemma StepKeepsInv(s: State, a: Action)
    requires Inv(s) && Step(s, a).Some?
    ensures Inv(Step(s, a).value)
  {
    hide Step, CallerOk, StoresOk, HoldersExist, LocksDistinct;
    LocksKept(s, a);
    StoresKept(s, a);
    HoldersKept(s, a);
    CallersKept(s, a);
  }

  lemma LocksKept(s: State, a: Action)
    requires Inv(s) && Step(s, a).Some?
    ensures LocksDistinct(Step(s, a).value)
  {
    hide CallerOk, StoresOk, HoldersExist;
  }

  lemma StoresKept(s: State, a: Action)
    requires Inv(s) && Step(s, a).Some?
    ensures StoresOk(Step(s, a).value.models, Step(s, a).value.stores)
  {
    hide LocksDistinct, HoldersExist;
    if a.Advance? && s.callers[a.t].Storing? {
      assert CallerOk(s, a.t);
      StoreNew(s.models, s.stores, s.callers[a.t].name, s.callers[a.t].model);
    } else {
      assert Step(s, a).value.stores == s.stores && Step(s, a).value.models == s.models;
    }
  }

  lemma StoreNew(models: map<Name, Model>, stores: seq<(Name, Model)>, n: Name, m: Model)
    requires StoresOk(models, stores) && n !in models
    ensures StoresOk(models[n := m], stores + [(n, m)])
  {
    var after := stores + [(n, m)];
    assert after[|stores|].0 == n;
    forall k | k in models ensures exists i | 0 <= i < |after| :: after[i].0 == k {
      var i :| 0 <= i < |stores| && stores[i].0 == k;
      assert after[i].0 == k;
    }
  }

  lemma HoldersKept(s: State, a: Action)
    requires Inv(s) && Step(s, a).Some?
    ensures HoldersExist(Step(s, a).value)
  {
    hide StoresOk;
    if !a.Call? {
      assert CallerOk(s, a.t);
      StepMoves(s, a);
    }
  }

  lemma CallersKept(s: State, a: Action)
    requires Inv(s) && Step(s, a).Some?
    ensures forall u | 0 <= u < |Step(s, a).value.callers| :: CallerOk(Step(s, a).value, u)
  {
    hide StoresOk, LocksDistinct, HoldersExist;
    var next := Step(s, a).value;
    if !a.Call? { StepMoves(s, a); }
    forall u | 0 <= u < |next.callers| ensures CallerOk(next, u) {
      if !a.Call? && u == a.t { CallerKept(s, a); }
      else if u < |s.callers| { OtherCallerKept(s, a, u); }
    }
  }

  lemma CallerKept(s: State, a: Action)
    requires Inv(s) && Step(s, a).Some? && !a.Call?
    ensures CallerOk(Step(s, a).value, a.t)
  {
    assert CallerOk(s, a.t);
    if a.Advance? {
      AdvancedHolds(s, a.t, s.callers[a.t]);
      AdvancedKnows(s, a.t, s.callers[a.t]);
    }
    hide AdvanceCaller, Inv;
  }

  lemma AdvancedHolds(s: State, t: nat, p: Phase)
    requires t < |s.callers| && p == s.callers[t] && CallerOk(s, t) && AdvanceCaller(s, t, p).Some?
    ensures var next := AdvanceCaller(s, t, p).value;
            var q := next.callers[t];
            && (HasLockId(q) ==> q.name in next.locks && next.locks[q.name] == q.lock)
            && (HoldsLock(q) ==> q.lock in next.owner && next.owner[q.lock] == t)
            && (HoldsRegistry(q) ==> next.registry == Some(t))
  {
    hide KnowsCache;
  }

  lemma AdvancedKnows(s: State, t: nat, p: Phase)
    requires t < |s.callers| && p == s.callers[t] && CallerOk(s, t) && AdvanceCaller(s, t, p).Some?
    ensures KnowsCache(AdvanceCaller(s, t, p).value.models, AdvanceCaller(s, t, p).value.callers[t])
  {
    hide HasLockId, HoldsLock, HoldsRegistry;
  }

  /** What a step cannot take away from the callers that do not make it. */
  lemma StepFrame(s: State, a: Action, u: nat)
    requires !a.Call? && Step(s, a).Some? && a.t != u < |s.callers| && a.t < |s.callers| && CallerOk(s, a.t)
    ensures var next := Step(s, a).value;
            && |next.callers| == |s.callers| && next.callers[u] == s.callers[u]
            && (forall n | n in s.locks :: n in next.locks && next.locks[n] == s.locks[n])
            && (forall n | n in s.models && s.callers[a.t].name != n :: n in next.models && next.models[n] == s.models[n])
            && (s.callers[a.t].name in s.models ==> next.models == s.models)
            && (forall n | n in next.models && n !in s.models :: n == s.callers[a.t].name && HoldsLock(s.callers[a.t]))
            && (forall l | l in s.owner && s.owner[l] == u :: l in next.owner && next.owner[l] == u)
            && (s.registry == Some(u) ==> next.registry == Some(u))
  {}

  lemma OtherCallerKept(s: State, a: Action, u: nat)
    requires Inv(s) && Step(s, a).Some? && u < |s.callers| && (a.Call? || u != a.t)
    ensures CallerOk(Step(s, a).value, u)
  {
    assert CallerOk(s, u);
    if !a.Call? {
      StepMoves(s, a);
      assert CallerOk(s, a.t);
      hide StoresOk, HoldersExist, LocksDistinct, Step;
      StepFrame(s, a, u);
    }
  }

  lemma {:induction false} RunKeepsInv(s: State, actions: seq<Action>)
    requires Inv(s) && Run(s, actions).Some?
    ensures Inv(Run(s, actions).value)
    decreases |actions|
  {
    if actions != [] {
      StepKeepsInv(s, actions[0]);
      RunKeepsInv(Step(s, actions[0]).value, actions[1..]);
    }
  }

  // ---------------------------------------------------------------- safety over whole runs

  /** At most one caller is inside the locked region of a name, so at most one builds it. */
  lemma OneBuilderPerName(actions: seq<Action>, t: nat, u: nat)
    requires Run(Init, actions).Some?
    requires var s := Run(Init, actions).value;
             && t < |s.callers| && u < |s.callers|
             && HoldsLock(s.callers[t]) && HoldsLock(s.callers[u])
             && s.callers[t].name == s.callers[u].name
    ensures t == u
  {
    RunKeepsInv(Init, actions);
    var s := Run(Init, actions).value;
    assert CallerOk(s, t) && CallerOk(s, u);
  }

  lemma StepOnlyAdds(s: State, a: Action)
    requires Inv(s) && Step(s, a).Some?
    ensures var next := Step(s, a).value;
            && (forall n | n in s.models :: n in next.models && next.models[n] == s.models[n])
            && (forall n | n in s.locks :: n in next.locks && next.locks[n] == s.locks[n])
            && s.stores <= next.stores
  {
    if a.Advance? { assert CallerOk(s, a.t); }
  }

  /** `_models` and `_locks` are write-once: an entry, once there, never changes or goes away. */
  lemma {:induction false} EntriesNeverChange(s: State, actions: seq<Action>)
    requires Inv(s) && Run(s, actions).Some?
    ensures var end := Run(s, actions).value;
            && (forall n | n in s.models :: n in end.models && end.models[n] == s.models[n])
            && (forall n | n in s.locks :: n in end.locks && end.locks[n] == s.locks[n])
    decreases |actions|
  {
    if actions != [] {
      StepOnlyAdds(s, actions[0]);
      StepKeepsInv(s, actions[0]);
      EntriesNeverChange(Step(s, actions[0]).value, actions[1..]);
    }
  }

  /** Each name is assigned in `_models` at most once in a run, and what the map holds is that assignment. */
  lemma StoredAtMostOnce(actions: seq<Action>, i: nat, j: nat)
    requires Run(Init, actions).Some?
    requires var s := Run(Init, actions).value;
             i < |s.stores| && j < |s.stores| && s.stores[i].0 == s.stores[j].0
    ensures var s := Run(Init, actions).value;
            i == j && s.stores[i].0 in s.models && s.models[s.stores[i].0] == s.stores[i].1
  {
    RunKeepsInv(Init, actions);
  }

  /** All successful callers of a name got the same object, which is the one in the cache. */
  lemma CallersAgree(actions: seq<Action>, t: nat, u: nat)
    requires Run(Init, actions).Some?
    requires var s := Run(Init, actions).value;
             && t < |s.callers| && u < |s.callers| && s.callers[t].Returned? && s.callers[u].Returned?
             && s.callers[t].name == s.callers[u].name
    ensures var s := Run(Init, actions).value;
            && s.callers[t].name in s.models
            && s.callers[t].model == s.callers[u].model == s.models[s.callers[t].name]
  {
    RunKeepsInv(Init, actions);
    var s := Run(Init, actions).value;
    assert CallerOk(s, t) && CallerOk(s, u);
  }

  // ---------------------------------------------------------------- failed builds

  /** A caller whose build failed is about to leave, or has left with the error. */
  ghost predicate Failed(p: Phase, name: Name, lock: LockId) {
    p == Releasing(name, lock, None) || p == Raised(name)
  }

  lemma FailedStep(s: State, t: nat, name: Name, lock: LockId, a: Action)
    requires t < |s.callers| && Failed(s.callers[t], name, lock) && Step(s, a).Some?
    ensures t < |Step(s, a).value.callers| && Failed(Step(s, a).value.callers[t], name, lock)
  {
    if !a.Call? {
      StepMoves(s, a);
      if a.t != t { hide Step; }
    }
  }

  lemma {:induction false} FailedStays(s: State, t: nat, name: Name, lock: LockId, actions: seq<Action>)
    requires Inv(s) && Run(s, actions).Some? && t < |s.callers| && Failed(s.callers[t], name, lock)
    ensures var end := Run(s, actions).value;
            Inv(end) && t < |end.callers| && Failed(end.callers[t], name, lock)
    decreases |actions|
  {
    if actions != [] {
      var next := Step(s, actions[0]).value;
      StepKeepsInv(s, actions[0]);
      FailedStep(s, t, name, lock, actions[0]);
      hide Inv, Step, Failed;
      FailedStays(next, t, name, lock, actions[1..]);
    }
  }

  /** A failed build, whatever the other callers do meanwhile: until its caller leaves, the name is not cached and
      nobody else is inside its lock; leaving takes one step, which only frees the lock and keeps the error. */
  lemma FailedBuildLeavesNoTrace(s: State, t: nat, others: seq<Action>)
    requires Inv(s) && t < |s.callers| && s.callers[t].Building?
    requires Run(Step(s, BuildFail(t)).value, others).Some?
    ensures var p, end := s.callers[t], Run(Step(s, BuildFail(t)).value, others).value;
            && t < |end.callers| && Failed(end.callers[t], p.name, p.lock)
            && (end.callers[t].Releasing? ==>
                  && p.name !in end.models
                  && (forall u | 0 <= u < |end.callers| && HoldsLock(end.callers[u]) && end.callers[u].name == p.name :: u == t)
                  && var left := Step(end, Advance(t));
                  && left.Some? && p.lock !in left.value.owner
                  && left.value == end.(callers := end.callers[t := Raised(p.name)], owner := end.owner - {p.lock}))
  {
    var p, mid := s.callers[t], Step(s, BuildFail(t)).value;
    StepKeepsInv(s, BuildFail(t));
    FailedStays(mid, t, p.name, p.lock, others);
    var end := Run(mid, others).value;
    assert CallerOk(end, t);
    forall u | 0 <= u < |end.callers| && end.callers[t].Releasing? && HoldsLock(end.callers[u]) && end.callers[u].name == p.name
      ensures u == t
    {
      assert CallerOk(end, u);
    }
  }

  // ---------------------------------------------------------------- where answers come from

  /** A caller that has this model of this name, on its way out or already gone with it. */
  ghost predicate Has(p: Phase, name: Name, m: Model) {
    || (p.Storing? && p.name == name && p.model == m)
    || (p.Releasing? && p.name == name && p.result == Some(m))
    || p == Returned(name, m)
  }

  /** The model of the name is in the cache or with some caller. */
  ghost predicate Known(s: State, name: Name, m: Model) {
    (name in s.models && s.models[name] == m) || exists t :: 0 <= t < |s.callers| && Has(s.callers[t], name, m)
  }

  ghost predicate Built(s: State, actions: seq<Action>, name: Name, m: Model) {
    exists u: nat :: u < |s.callers| && s.callers[u].name == name && BuildOk(u, m) in actions
  }

  lemma StepKnows(s: State, a: Action, name: Name, m: Model)
    requires Step(s, a).Some? && Known(Step(s, a).value, name, m)
    ensures Known(s, name, m) || (a == BuildOk(a.t, m) && a.t < |s.callers| && s.callers[a.t].name == name)
  {
    var next := Step(s, a).value;
    if !a.Call? { StepMoves(s, a); }
    if exists t :: 0 <= t < |next.callers| && Has(next.callers[t], name, m) {
      var t :| 0 <= t < |next.callers| && Has(next.callers[t], name, m);
      if !a.Call? && t == a.t { MoverKnows(s, a, name, m); }
    } else if !a.Call? {
      MoverStores(s, a, name, m);
    }
  }

  lemma MoverKnows(s: State, a: Action, name: Name, m: Model)
    requires !a.Call? && Step(s, a).Some? && a.t < |s.callers| && Has(Step(s, a).value.callers[a.t], name, m)
    ensures Known(s, name, m) || (a == BuildOk(a.t, m) && s.callers[a.t].name == name)
  {
    assert Has(s.callers[a.t], name, m) || (name in s.models && s.models[name] == m) || a == BuildOk(a.t, m);
  }

  lemma MoverStores(s: State, a: Action, name: Name, m: Model)
    requires !a.Call? && Step(s, a).Some? && name in Step(s, a).value.models && Step(s, a).value.models[name] == m
    ensures Known(s, name, m)
  {
    StepMoves(s, a);
    assert (name in s.models && s.models[name] == m) || Has(s.callers[a.t], name, m);
  }

  lemma {:induction false} NamesStay(s: State, actions: seq<Action>, t: nat)
    requires Run(s, actions).Some? && t < |s.callers|
    ensures var end := Run(s, actions).value; t < |end.callers| && end.callers[t].name == s.callers[t].name
    decreases |actions|
  {
    if actions != [] {
      if !actions[0].Call? { StepMoves(s, actions[0]); }
      assert t < |Step(s, actions[0]).value.callers| && Step(s, actions[0]).value.callers[t].name == s.callers[t].name;
      hide Step;
      NamesStay(Step(s, actions[0]).value, actions[1..], t);
    }
  }

  lemma {:induction false} KnownIsBuilt(s: State, actions: seq<Action>, name: Name, m: Model)
    requires Run(s, actions).Some? && Known(Run(s, actions).value, name, m) && !Known(s, name, m)
    ensures Built(Run(s, actions).value, actions, name, m)
    decreases |actions|
  {
    hide Step, Known;
    if actions != [] {
      var a, next := actions[0], Step(s, actions[0]).value;
      if Known(next, name, m) {
        StepKnows(s, a, name, m);
        NamesStay(s, actions, a.t);
        assert a in actions;
      } else {
        KnownIsBuilt(next, actions[1..], name, m);
        assert forall b | b in actions[1..] :: b in actions;
      }
    }
  }

  /** What a caller returns was built by a caller for the same name. */
  lemma ReturnedWasBuilt(actions: seq<Action>, t: nat)
    requires Run(Init, actions).Some? && t < |Run(Init, actions).value.callers| && Run(Init, actions).value.callers[t].Returned?
    ensures var s := Run(Init, actions).value; Built(s, actions, s.callers[t].name, s.callers[t].model)
  {
    var s := Run(Init, actions).value;
    assert Has(s.callers[t], s.callers[t].name, s.callers[t].model);
    KnownIsBuilt(Init, actions, s.callers[t].name, s.callers[t].model);
  }

  /** The caller has failed, or is about to leave with the error. */
  ghost predicate Fails(p: Phase) { p.Raised? || (p.Releasing? && p.result.None?) }

  lemma StepFails(s: State, a: Action, t: nat)
    requires Step(s, a).Some? && t < |Step(s, a).value.callers| && Fails(Step(s, a).value.callers[t])
    ensures a == BuildFail(t) || (t < |s.callers| && Fails(s.callers[t]))
  {
    if !a.Call? { StepMoves(s, a); }
  }

  lemma {:induction false} FailureHasCause(s: State, actions: seq<Action>, t: nat)
    requires Run(s, actions).Some? && t < |Run(s, actions).value.callers| && Fails(Run(s, actions).value.callers[t])
    ensures BuildFail(t) in actions || (t < |s.callers| && Fails(s.callers[t]))
    decreases |actions|
  {
    hide Step;
    if actions != [] {
      var next := Step(s, actions[0]).value;
      FailureHasCause(next, actions[1..], t);
      if t < |next.callers| && Fails(next.callers[t]) { StepFails(s, actions[0], t); }
    }
  }

  /** Only the caller whose own build failed gets an error. */
  lemma RaisedMeansFailed(actions: seq<Action>, t: nat)
    requires Run(Init, actions).Some? && t < |Run(Init, actions).value.callers| && Run(Init, actions).value.callers[t].Raised?
    ensures BuildFail(t) in actions
  {
    FailureHasCause(Init, actions, t);
  }

  lemma StepHas(s: State, a: Action, t: nat, name: Name, m: Model)
    requires Step(s, a).Some? && t < |s.callers| && Has(s.callers[t], name, m)
    ensures t < |Step(s, a).value.callers| && Has(Step(s, a).value.callers[t], name, m)
  {
    if !a.Call? {
      StepMoves(s, a);
      if a.t != t { hide Step; }
    }
  }

  lemma {:induction false} HasStays(s: State, actions: seq<Action>, t: nat, name: Name, m: Model)
    requires Run(s, actions).Some? && t < |s.callers| && Has(s.callers[t], name, m)
    ensures t < |Run(s, actions).value.callers| && Has(Run(s, actions).value.callers[t], name, m)
    decreases |actions|
  {
    hide Step;
    if actions != [] {
      StepHas(s, actions[0], t, name, m);
      hide Has;
      HasStays(Step(s, actions[0]).value, actions[1..], t, name, m);
    }
  }

  /** A successful build reaches its own caller: in every continuation it is storing, releasing or has returned that model,
      and when it has finished it has returned it. */
  lemma BuildReachesCaller(s: State, t: nat, m: Model, others: seq<Action>)
    requires t < |s.callers| && s.callers[t].Building? && Run(Step(s, BuildOk(t, m)).value, others).Some?
    ensures var end := Run(Step(s, BuildOk(t, m)).value, others).value;
            && t < |end.callers| && Has(end.callers[t], s.callers[t].name, m)
            && (Finished(end.callers[t]) ==> end.callers[t] == Returned(s.callers[t].name, m))
  {
    HasStays(Step(s, BuildOk(t, m)).value, others, t, s.callers[t].name, m);
  }

  /** A call for a name in the cache is answered in one step of its own, whoever holds the locks. */
  lemma CachedNeverWaits(s: State, t: nat)
    requires t < |s.callers| && s.callers[t].FastCheck? && s.callers[t].name in s.models
    ensures var n := s.callers[t].name;
            Step(s, Advance(t)) == Some(s.(callers := s.callers[t := Returned(n, s.models[n])]))
  {}

  /** Nothing keeps the caller from reaching its build: the name is not cached, and each of the two locks
      is free or held by the caller itself. */
  ghost predicate Unobstructed(s: State, t: nat)
    requires t < |s.callers|
  {
    var p := s.callers[t];
    && p.name !in s.models
    && (s.registry.None? || s.registry.value == t)
    && (p.name in s.locks && s.locks[p.name] in s.owner ==> s.owner[s.locks[p.name]] == t)
  }

  /** Whenever a name is not cached and neither lock is held, a caller that has not yet built gets to
      build it, however the earlier callers fared: an earlier failure does not block it. */
  lemma CallerReachesBuild(s: State, t: nat) returns (actions: seq<Action>)
    requires Inv(s) && t < |s.callers| && Rank(s.callers[t]) >= 3 && Unobstructed(s, t)
    ensures forall a | a in actions :: a == Advance(t)
    ensures var end := Run(s, actions);
            && end.Some? && |end.value.callers| == |s.callers|
            && end.value.callers[t].Building? && end.value.callers[t].name == s.callers[t].name
            && forall u | 0 <= u < |s.callers| && u != t :: end.value.callers[u] == s.callers[u]
    decreases Rank(s.callers[t])
  {
    var a := Advance(t);
    if s.callers[t].Building? {
      actions := [];
    } else {
      assert CallerOk(s, t);
      UnobstructedStep(s, t);
      StepKeepsInv(s, a);
      var rest := CallerReachesBuild(Step(s, a).value, t);
      actions := [a] + rest;
      assert actions[1..] == rest;
    }
  }

  lemma UnobstructedStep(s: State, t: nat)
    requires Inv(s) && t < |s.callers| && Rank(s.callers[t]) > 3 && Unobstructed(s, t)
    ensures var next := Step(s, Advance(t));
            && next.Some? && |next.value.callers| == |s.callers|
            && next.value.callers[t].name == s.callers[t].name
            && 3 <= Rank(next.value.callers[t]) < Rank(s.callers[t])
            && Unobstructed(next.value, t)
            && forall u | 0 <= u < |s.callers| && u != t :: next.value.callers[u] == s.callers[u]
  {
    hide StoresOk;
    assert CallerOk(s, t);
  }

  // ---------------------------------------------------------------- nobody waits for ever

  /** How many steps a caller still has to take at most. */
  function Rank(p: Phase): nat {
    match p
    case FastCheck(_) => 9
    case WantRegistry(_) => 8
    case InRegistry(_) => 7
    case LeaveRegistry(_, _) => 6
    case WantLock(_, _) => 5
    case SecondCheck(_, _) => 4
    case Building(_, _) => 3
    case Storing(_, _, _) => 2
    case Releasing(_, _, _) => 1
    case Returned(_, _) => 0
    case Raised(_) => 0
  }

  function TotalRank(ps: seq<Phase>): nat {
    if ps == [] then 0 else TotalRank(ps[..|ps| - 1]) + Rank(ps[|ps| - 1])
  }

  function Calls(actions: seq<Action>): nat {
    if actions == [] then 0 else (if actions[0].Call? then 1 else 0) + Calls(actions[1..])
  }

  lemma {:induction false} RankUpdate(ps: seq<Phase>, t: nat, p: Phase)
    requires t < |ps|
    ensures TotalRank(ps[t := p]) == TotalRank(ps) - Rank(ps[t]) + Rank(p)
  {
    var n := |ps| - 1;
    if t < n {
      RankUpdate(ps[..n], t, p);
      assert ps[t := p][..n] == ps[..n][t := p];
    } else {
      assert ps[t := p][..n] == ps[..n];
    }
  }

  lemma StepLowersRank(s: State, a: Action)
    requires Step(s, a).Some?
    ensures a.Call? ==> TotalRank(Step(s, a).value.callers) == TotalRank(s.callers) + 9
    ensures !a.Call? ==> TotalRank(Step(s, a).value.callers) < TotalRank(s.callers)
  {
    if a.Call? {
      var next := Step(s, a).value;
      assert next.callers[..|s.callers|] == s.callers;
    } else {
      hide Step;
      StepMoves(s, a);
      RankUpdate(s.callers, a.t, Step(s, a).value.callers[a.t]);
    }
  }

  /** A run with c calls takes at most nine steps for each of them: there is no livelock. */
  lemma {:induction false} RunsAreBounded(s: State, actions: seq<Action>)
    requires Run(s, actions).Some?
    ensures |actions| - Calls(actions) + TotalRank(Run(s, actions).value.callers)
         <= TotalRank(s.callers) + 9 * Calls(actions)
    decreases |actions|
  {
    if actions != [] {
      StepLowersRank(s, actions[0]);
      RunsAreBounded(Step(s, actions[0]).value, actions[1..]);
    }
  }

  /** As long as some caller is unfinished, some unfinished caller can take a step: there is no deadlock. */
  lemma SomeCallerCanStep(actions: seq<Action>, t: nat) returns (a: Action)
    requires Run(Init, actions).Some?
    requires var s := Run(Init, actions).value; t < |s.callers| && !Finished(s.callers[t])
    ensures !a.Call? && Step(Run(Init, actions).value, a).Some?
  {
    RunKeepsInv(Init, actions);
    var s := Run(Init, actions).value;
    a := EnabledAction(s, t);
  }

  lemma EnabledAction(s: State, t: nat) returns (a: Action)
    requires Inv(s) && t < |s.callers| && !Finished(s.callers[t])
    ensures !a.Call? && Step(s, a).Some?
    decreases Rank(s.callers[t])
  {
    var p := s.callers[t];
    assert CallerOk(s, t);
    if p.Building? {
      a := BuildFail(t);
    } else if p.WantRegistry? && s.registry.Some? {
      a := Advance(s.registry.value);
    } else if p.WantLock? && p.lock in s.owner {
      a := EnabledAction(s, s.owner[p.lock]);
    } else {
      a := Advance(t);
    }
  }
}
