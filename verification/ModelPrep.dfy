/** Preparing the models of an embedding or reranker deployment (backend/app/deploy/model_prep.py), and what the
    container is then told to serve (backend/app/servermgr/service.py). The model store and the agent answer
    through parameters. */
module ModelPrep {
  import opened Text
  import opened Wrappers

  type Env = map<string, string>

  datatype Model = Model(name: string, repo: string, detail: string)

  datatype Outcome = Prewarmed | Ready | BadRequest | Conflict | AgentFailed

  function Get(env: Env, key: string): string { if key in env then env[key] else "" }

  // ---------------------------------------------------------------- resolving the selection

  function StripAll(parts: seq<string>): seq<string> {
    if parts == [] then []
    else
      var last := Strip(parts[|parts| - 1]);
      var before := StripAll(parts[..|parts| - 1]);
      if last != "" then before + [last] else before
  }

  function SelectedNames(env: Env): seq<string> { StripAll(SplitOn(Get(env, "MODEL_NAMES"), ',')) }

  /** The lookup table: a later model takes over the keys of an earlier one. */
  function Lookup(registry: seq<Model>): map<string, Model> {
    if registry == [] then map[]
    else
      var m := registry[|registry| - 1];
      Lookup(registry[..|registry| - 1])[m.name := m][m.repo := m]
  }

  function Resolve(byKey: map<string, Model>, names: seq<string>): Option<seq<Model>> {
    if names == [] then Some([])
    else
      var n := names[|names| - 1];
      var before := Resolve(byKey, names[..|names| - 1]);
      if before.None? || n !in byKey then None
      else if byKey[n] in before.value then before
      else Some(before.value + [byKey[n]])
  }

  datatype Choice = Choice(picked: seq<Model>, standard: Model)

  /** The resolved selection with its default, unless one of the two 400 refusals applies. */
  function Choose(env: Env, registry: seq<Model>): Option<Choice> {
    var byKey, names := Lookup(registry), SelectedNames(env);
    var key := Strip(Get(env, "DEFAULT_MODEL"));
    match Resolve(byKey, names)
    case None => None
    case Some(picked) =>
      if picked == [] then None
      else if key == "" then Some(Choice(picked, picked[0]))
      else if key in byKey && byKey[key] in picked then Some(Choice(picked, byKey[key]))
      else None
  }

  // ---------------------------------------------------------------- the preparation

  class Host {
    /** The models the agent installed, in order. */
    var installed: seq<Model>

    constructor ()
      ensures installed == []
    {
      installed := [];
    }

    /** `_install_kind_model`: the agent's answer decides. */
    method Install(m: Model, agent: Model -> bool) returns (ok: bool)
      modifies this
      ensures ok == agent(m) && installed == if ok then old(installed) + [m] else old(installed)
    {
      ok := agent(m);
      if ok { installed := installed + [m]; }
    }
  }

  class Spec {
    var env: Env

    constructor (env: Env)
      ensures this.env == env
    {
      this.env := env;
    }
  }

  function Stored(models: seq<Model>, stored: string -> bool): (out: seq<Model>)
    ensures forall m :: m in out <==> m in models && stored(m.name)
  {
    if models == [] then []
    else
      var m := models[|models| - 1];
      var before := Stored(models[..|models| - 1], stored);
      if stored(m.name) then before + [m] else before
  }

  function Accepted(models: seq<Model>, agent: Model -> bool): (out: seq<Model>)
    ensures forall m :: m in out <==> m in models && agent(m)
  {
    if models == [] then []
    else
      var m := models[|models| - 1];
      var before := Accepted(models[..|models| - 1], agent);
      if agent(m) then before + [m] else before
  }

  predicate AllStored(models: seq<Model>, stored: string -> bool) { forall m | m in models :: stored(m.name) }

  function Repos(models: seq<Model>): (out: seq<string>)
    ensures |out| == |models| && forall i | 0 <= i < |models| :: out[i] == models[i].repo
  {
    seq(|models|, i requires 0 <= i < |models| => models[i].repo)
  }

  function Stash(env: Env, c: Choice, offline: bool): Env {
    var e := env["MODELS_REPOS" := Join(",", Repos(c.picked))]["DEFAULT_REPO" := c.standard.repo];
    if offline then e["MODELS_OFFLINE" := "1"] else e
  }

  predicate Online(env: Env) { Get(env, "ALLOW_ONLINE_MODEL") == "1" }

  /** `prepare_kind_models`. */
  method Prepare(spec: Spec, host: Host, registry: seq<Model>, stored: string -> bool, agent: Model -> bool)
    returns (outcome: Outcome)
    modifies spec, host
    ensures var env, c := old(spec.env), Choose(old(spec.env), registry);
            if SelectedNames(env) == [] then
              && outcome.Prewarmed? && spec.env == env
              && host.installed == old(host.installed) + Accepted(Stored(registry, stored), agent)
            else if c.None? then
              outcome.BadRequest? && spec.env == env && host.installed == old(host.installed)
            else
              var needed := Stored(c.value.picked, stored);
              if exists m :: m in needed && !agent(m) then
                && outcome.AgentFailed? && spec.env == env
                && (exists i :: 0 <= i < |needed| && host.installed == old(host.installed) + needed[..i] && !agent(needed[i]))
              else
                && host.installed == old(host.installed) + needed
                && if AllStored(c.value.picked, stored) || Get(env, "ALLOW_ONLINE_MODEL") == "1" then
                     outcome.Ready? && spec.env == Stash(env, c.value, AllStored(c.value.picked, stored))
                   else
                     outcome.Conflict? && spec.env == env
  {
    hide SplitOn, Strip, Lookup, Resolve, SelectedNames, Join;
    ghost var before := spec.env;
    var names := SelectedNames(spec.env);
    if names == [] {
      Prewarm(host, registry, stored, agent);
      return Prewarmed;
    }
    var byKey := BuildLookup(registry);
    var picked := Pick(byKey, names);
    if picked.None? { return BadRequest; }
    ResolvedNotEmpty(byKey, names);
    var key := Strip(Get(spec.env, "DEFAULT_MODEL"));
    if key != "" && key !in byKey { return BadRequest; }
    var standard := if key != "" then byKey[key] else picked.value[0];
    if standard !in picked.value { return BadRequest; }
    var missing, ok := InstallStored(host, picked.value, stored, agent);
    if !ok { return AgentFailed; }
    var offline := true;
    if missing != [] {
      if !Online(spec.env) { return Conflict; }
      offline := false;
    }
    spec.env := Stash(spec.env, Choice(picked.value, standard), offline);
    return Ready;
  }

  lemma {:induction false} ResolvedNotEmpty(byKey: map<string, Model>, names: seq<string>)
    requires names != [] && Resolve(byKey, names).Some?
    ensures Resolve(byKey, names).value != []
  {}

  method Prewarm(host: Host, registry: seq<Model>, stored: string -> bool, agent: Model -> bool)
    modifies host
    ensures host.installed == old(host.installed) + Accepted(Stored(registry, stored), agent)
  {
    hide Stored, Accepted;
    ghost var start := host.installed;
    ghost var done: seq<Model> := [];
    AcceptedNone(stored, agent);
    for i := 0 to |registry|
      invariant host.installed == start + done && done == Accepted(Stored(registry[..i], stored), agent)
    {
      StoredStep(registry, stored, i);
      if !stored(registry[i].name) { continue; }
      AcceptedSnoc(Stored(registry[..i], stored), registry[i], agent);
      var ok := host.Install(registry[i], agent);
      if ok {
        assert start + (done + [registry[i]]) == start + done + [registry[i]];
        done := done + [registry[i]];
      }
    }
    assert registry[..|registry|] == registry;
  }

  lemma StoredStep(models: seq<Model>, stored: string -> bool, i: nat)
    requires i < |models|
    ensures Stored(models[..i + 1], stored)
         == if stored(models[i].name) then Stored(models[..i], stored) + [models[i]] else Stored(models[..i], stored)
  {
    assert models[..i + 1][..i] == models[..i];
  }

  lemma AcceptedNone(stored: string -> bool, agent: Model -> bool)
    ensures Stored([], stored) == [] && Accepted([], agent) == []
  {}

  lemma AcceptedSnoc(models: seq<Model>, m: Model, agent: Model -> bool)
    ensures Accepted(models + [m], agent) == if agent(m) then Accepted(models, agent) + [m] else Accepted(models, agent)
  {
    assert (models + [m])[..|models|] == models;
  }

  method BuildLookup(registry: seq<Model>) returns (byKey: map<string, Model>)
    ensures byKey == Lookup(registry)
  {
    byKey := map[];
    for i := 0 to |registry|
      invariant byKey == Lookup(registry[..i])
    {
      assert registry[..i + 1][..i] == registry[..i];
      byKey := byKey[registry[i].name := registry[i]];
      byKey := byKey[registry[i].repo := registry[i]];
    }
    assert registry[..|registry|] == registry;
  }

  method Pick(byKey: map<string, Model>, names: seq<string>) returns (picked: Option<seq<Model>>)
    ensures picked == Resolve(byKey, names)
  {
    var models: seq<Model> := [];
    for i := 0 to |names|
      invariant Resolve(byKey, names[..i]) == Some(models)
    {
      assert names[..i + 1][..i] == names[..i];
      if names[i] !in byKey {
        ResolveFails(byKey, names, i);
        return None;
      }
      if byKey[names[i]] !in models { models := models + [byKey[names[i]]]; }
    }
    assert names[..|names|] == names;
    return Some(models);
  }

  lemma {:induction false} ResolveFails(byKey: map<string, Model>, names: seq<string>, i: nat)
    requires i < |names| && names[i] !in byKey
    ensures Resolve(byKey, names).None?
  {
    if i != |names| - 1 { ResolveFails(byKey, names[..|names| - 1], i); }
  }

  /** The installation loop: what the store has is installed, what it lacks is noted. */
  method InstallStored(host: Host, picked: seq<Model>, stored: string -> bool, agent: Model -> bool)
    returns (missing: seq<string>, ok: bool)
    modifies host
    ensures ok <==> forall m | m in Stored(picked, stored) :: agent(m)
    ensures ok ==> host.installed == old(host.installed) + Stored(picked, stored)
    ensures ok ==> (missing == [] <==> AllStored(picked, stored))
    ensures !ok ==> var needed := Stored(picked, stored);
                    exists i :: 0 <= i < |needed| && host.installed == old(host.installed) + needed[..i] && !agent(needed[i])
  {
    hide Stored, AllStored;
    ghost var start := host.installed;
    ghost var done: seq<Model> := [];
    missing := [];
    AcceptedNone(stored, agent);
    AllStoredNone(stored);
    for i := 0 to |picked|
      invariant host.installed == start + done && done == Stored(picked[..i], stored)
      invariant forall m | m in done :: agent(m)
      invariant missing == [] <==> AllStored(picked[..i], stored)
    {
      StoredStep(picked, stored, i);
      AllStoredStep(picked, stored, i);
      if !stored(picked[i].name) {
        missing := missing + [picked[i].name];
        continue;
      }
      ok := host.Install(picked[i], agent);
      if !ok {
        StoredPrefix(picked, stored, i);
        return;
      }
      assert start + (done + [picked[i]]) == start + done + [picked[i]];
      done := done + [picked[i]];
    }
    assert picked[..|picked|] == picked;
    ok := true;
  }

  lemma AllStoredNone(stored: string -> bool)
    ensures AllStored([], stored)
  {}

  lemma AllStoredStep(models: seq<Model>, stored: string -> bool, i: nat)
    requires i < |models|
    ensures AllStored(models[..i + 1], stored) <==> AllStored(models[..i], stored) && stored(models[i].name)
  {
    assert models[..i + 1] == models[..i] + [models[i]];
  }

  lemma {:induction false} StoredPrefix(models: seq<Model>, stored: string -> bool, i: nat)
    requires i < |models| && stored(models[i].name)
    ensures var all, before := Stored(models, stored), Stored(models[..i], stored);
            |before| < |all| && all[..|before|] == before && all[|before|] == models[i]
  {
    if i != |models| - 1 {
      var init := models[..|models| - 1];
      StoredPrefix(init, stored, i);
      assert init[..i] == models[..i];
    }
  }

  // ---------------------------------------------------------------- what is served

  predicate Holds(m: Model, key: string) { m.name == key || m.repo == key }

  lemma {:induction false} LookupKeys(registry: seq<Model>, key: string)
    ensures key in Lookup(registry) <==> exists m :: m in registry && Holds(m, key)
  {
    if registry != [] {
      var n := |registry| - 1;
      LookupKeys(registry[..n], key);
      assert registry == registry[..n] + [registry[n]];
      assert key in Lookup(registry) <==> key in Lookup(registry[..n]) || Holds(registry[n], key);
    }
  }

  /** A key leads to the last registered model that has it as name or repository. */
  lemma {:induction false} LookupFindsLast(registry: seq<Model>, key: string, i: nat)
    requires i < |registry| && Holds(registry[i], key) && forall j | i < j < |registry| :: !Holds(registry[j], key)
    ensures key in Lookup(registry) && Lookup(registry)[key] == registry[i]
  {
    if i != |registry| - 1 { LookupFindsLast(registry[..|registry| - 1], key, i); }
  }

  /** The position of the first name that leads to the model; past the end if there is none. */
  function First(byKey: map<string, Model>, names: seq<string>, m: Model): (k: nat)
    ensures k < |names| ==> names[k] in byKey && byKey[names[k]] == m
    ensures forall j | 0 <= j < k && j < |names| :: names[j] in byKey ==> byKey[names[j]] != m
    ensures k <= |names|
  {
    if names == [] || (names[0] in byKey && byKey[names[0]] == m) then 0 else 1 + First(byKey, names[1..], m)
  }

  lemma FirstIs(byKey: map<string, Model>, names: seq<string>, m: Model, k: nat)
    requires k < |names| && names[k] in byKey && byKey[names[k]] == m
    requires forall j | 0 <= j < k :: names[j] in byKey ==> byKey[names[j]] != m
    ensures First(byKey, names, m) == k
  {
    assert names[First(byKey, names, m)] in byKey;
  }

  function Positions(byKey: map<string, Model>, names: seq<string>, picked: seq<Model>): (ps: seq<nat>)
    ensures |ps| == |picked| && forall a | 0 <= a < |picked| :: ps[a] == First(byKey, names, picked[a])
  {
    seq(|picked|, a requires 0 <= a < |picked| => First(byKey, names, picked[a]))
  }

  ghost predicate Increasing(ps: seq<nat>, bound: nat) {
    (forall a | 0 <= a < |ps| :: ps[a] < bound) && forall a, b | 0 <= a < b < |ps| :: ps[a] < ps[b]
  }

  /** The models are those the names lead to, each once, in the order of first mention. */
  ghost predicate Selection(byKey: map<string, Model>, names: seq<string>, picked: seq<Model>) {
    Covers(byKey, names, picked) && Increasing(Positions(byKey, names, picked), |names|)
  }

  ghost predicate Covers(byKey: map<string, Model>, names: seq<string>, picked: seq<Model>) {
    forall i | 0 <= i < |names| :: names[i] in byKey && byKey[names[i]] in picked
  }

  /** The selection is refused exactly when a name leads nowhere, and is right otherwise. */
  lemma {:induction false} ResolveMeaning(byKey: map<string, Model>, names: seq<string>)
    ensures Resolve(byKey, names).Some? <==> forall n | n in names :: n in byKey
    ensures Resolve(byKey, names).Some? ==> Selection(byKey, names, Resolve(byKey, names).value)
  {
    hide Selection;
    if names == [] {
      SelectNone(byKey);
    } else {
      var n := |names| - 1;
      var init, last := names[..n], names[n];
      ResolveMeaning(byKey, init);
      assert names == init + [last];
      if Resolve(byKey, names).Some? { SelectOneMore(byKey, init, last, Resolve(byKey, init).value); }
    }
  }

  lemma SelectNone(byKey: map<string, Model>)
    ensures Selection(byKey, [], [])
  {}

  lemma SelectOneMore(byKey: map<string, Model>, names: seq<string>, last: string, picked: seq<Model>)
    requires Selection(byKey, names, picked) && last in byKey
    ensures Selection(byKey, names + [last], if byKey[last] in picked then picked else picked + [byKey[last]])
  {
    hide First, Positions, Increasing, Covers;
    var m := byKey[last];
    var after := if m in picked then picked else picked + [m];
    PositionsStay(byKey, names, last, picked);
    CoversSnoc(byKey, names, last, picked, after);
    IncreasingStays(Positions(byKey, names, picked), |names|);
    if m !in picked {
      FirstAtEnd(byKey, names, last, picked);
      PositionsSnoc(byKey, names + [last], picked, m);
    }
  }

  lemma CoversSnoc(byKey: map<string, Model>, names: seq<string>, last: string, picked: seq<Model>, after: seq<Model>)
    requires Covers(byKey, names, picked) && last in byKey && picked <= after && byKey[last] in after
    ensures Covers(byKey, names + [last], after)
  {
    forall i | 0 <= i < |names + [last]| ensures (names + [last])[i] in byKey && byKey[(names + [last])[i]] in after {
      if i < |names| { assert byKey[names[i]] in picked; }
    }
  }

  lemma IncreasingStays(ps: seq<nat>, n: nat)
    requires Increasing(ps, n)
    ensures Increasing(ps, n + 1) && Increasing(ps + [n], n + 1)
  {}

  lemma FirstAtEnd(byKey: map<string, Model>, names: seq<string>, last: string, picked: seq<Model>)
    requires Covers(byKey, names, picked) && last in byKey && byKey[last] !in picked
    ensures First(byKey, names + [last], byKey[last]) == |names|
  {
    hide First;
    var all := names + [last];
    forall j | 0 <= j < |names| ensures all[j] in byKey && byKey[all[j]] != byKey[last] { assert all[j] == names[j]; }
    FirstIs(byKey, all, byKey[last], |names|);
  }

  lemma PositionsStay(byKey: map<string, Model>, names: seq<string>, last: string, picked: seq<Model>)
    requires Increasing(Positions(byKey, names, picked), |names|)
    ensures Positions(byKey, names + [last], picked) == Positions(byKey, names, picked)
  {
    hide First;
    forall a | 0 <= a < |picked| ensures First(byKey, names + [last], picked[a]) == First(byKey, names, picked[a]) {
      FirstIs(byKey, names + [last], picked[a], First(byKey, names, picked[a]));
    }
  }

  lemma PositionsSnoc(byKey: map<string, Model>, names: seq<string>, picked: seq<Model>, m: Model)
    ensures Positions(byKey, names, picked + [m]) == Positions(byKey, names, picked) + [First(byKey, names, m)]
  {
    hide First;
  }

  /** The i-th model is the one the key leads to: no model registered after it takes the key over. */
  ghost predicate LeadsTo(registry: seq<Model>, key: string, i: int) {
    0 <= i < |registry| && Holds(registry[i], key) && forall j | i < j < |registry| :: !Holds(registry[j], key)
  }

  /** Two different models registered under one repository. */
  ghost predicate Twins(registry: seq<Model>, i: nat, j: nat)
    requires i < |registry| && j < |registry|
  {
    registry[i] != registry[j] && registry[i].repo == registry[j].repo
  }

  ghost predicate AllLead(registry: seq<Model>, names: seq<string>) {
    forall n | n in names :: exists i :: LeadsTo(registry, n, i)
  }

  ghost predicate PairwiseDifferent(repos: seq<string>) {
    forall a, b | 0 <= a < b < |repos| :: repos[a] != repos[b]
  }

  /** The repositories served are pairwise different if and only if no two of the selected names lead to different
      models registered under one repository. */
  lemma ServedOnce(registry: seq<Model>, names: seq<string>)
    requires AllLead(registry, names)
    ensures Resolve(Lookup(registry), names).Some?
    ensures PairwiseDifferent(Repos(Resolve(Lookup(registry), names).value))
       <==> (forall a, b, i, j | a in names && b in names && LeadsTo(registry, a, i) && LeadsTo(registry, b, j) ::
               !Twins(registry, i, j))
  {
    var byKey := Lookup(registry);
    hide Lookup, Resolve, First, Holds, Positions, Repos, Selection, PairwiseDifferent;
    forall n, i | n in names && LeadsTo(registry, n, i) ensures n in byKey && byKey[n] == registry[i] {
      KeyLeads(registry, n, i);
    }
    assert forall n | n in names :: n in byKey;
    ResolveMeaning(byKey, names);
    var picked := Resolve(byKey, names).value;
    DistinctRepos(byKey, names, picked);
    forall m | m in picked ensures exists n, i :: n in names && LeadsTo(registry, n, i) && registry[i] == m {
      PickedIsNamed(byKey, names, picked, m);
    }
    forall n, i | n in names && LeadsTo(registry, n, i) ensures registry[i] in picked {
      NamedIsPicked(byKey, names, picked, n);
    }
  }

  lemma KeyLeads(registry: seq<Model>, key: string, i: int)
    requires LeadsTo(registry, key, i)
    ensures 0 <= i < |registry| && key in Lookup(registry) && Lookup(registry)[key] == registry[i]
  {
    LookupFindsLast(registry, key, i);
  }

  lemma NamedIsPicked(byKey: map<string, Model>, names: seq<string>, picked: seq<Model>, n: string)
    requires Selection(byKey, names, picked) && n in names
    ensures n in byKey && byKey[n] in picked
  {
    hide Positions, First;
    var i :| 0 <= i < |names| && names[i] == n;
  }

  lemma PickedIsNamed(byKey: map<string, Model>, names: seq<string>, picked: seq<Model>, m: Model)
    requires Selection(byKey, names, picked) && m in picked
    ensures exists n :: n in names && n in byKey && byKey[n] == m
  {
    var a :| 0 <= a < |picked| && picked[a] == m;
    assert Positions(byKey, names, picked)[a] == First(byKey, names, m);
    assert names[First(byKey, names, m)] in names;
  }

  /** A model some selection can name: its name or its repository leads to it. */
  ghost predicate Reached(registry: seq<Model>, i: nat)
    requires i < |registry|
  {
    LeadsTo(registry, registry[i].name, i) || LeadsTo(registry, registry[i].repo, i)
  }

  /** Every selection is served without duplicates if and only if no two models that can be named at all are
      registered under one repository. */
  lemma AlwaysServedOnce(registry: seq<Model>)
    ensures (forall names | AllLead(registry, names) ::
               PairwiseDifferent(Repos(ServedModels(registry, names))))
       <==> (forall i, j | 0 <= i < j < |registry| && Reached(registry, i) && Reached(registry, j) ::
               !Twins(registry, i, j))
  {
    hide Repos, PairwiseDifferent;
    if forall i, j | 0 <= i < j < |registry| && Reached(registry, i) && Reached(registry, j) :: !Twins(registry, i, j) {
      forall names | AllLead(registry, names) ensures PairwiseDifferent(Repos(ServedModels(registry, names))) {
        ServedOnce(registry, names);
        forall a, b, i, j | a in names && b in names && LeadsTo(registry, a, i) && LeadsTo(registry, b, j)
          ensures !Twins(registry, i, j)
        {
          assert Reached(registry, i) && Reached(registry, j);
        }
      }
    } else {
      var i, j :| 0 <= i < j < |registry| && Reached(registry, i) && Reached(registry, j) && Twins(registry, i, j);
      var a :| LeadsTo(registry, a, i);
      var b :| LeadsTo(registry, b, j);
      var names := [a, b];
      assert AllLead(registry, names) && a in names && b in names;
      ServedOnce(registry, names);
      assert !PairwiseDifferent(Repos(ServedModels(registry, names)));
    }
  }

  function ServedModels(registry: seq<Model>, names: seq<string>): seq<Model> {
    match Resolve(Lookup(registry), names) case None => [] case Some(picked) => picked
  }

  /** The registry keeps names apart, not repositories: selecting two models of one repository serves it twice. */
  lemma ServedTwice(env: Env)
    requires Get(env, "MODEL_NAMES") == "a,b"
    ensures var registry := [Model("a", "r", ""), Model("b", "r", "")];
            Join(",", Repos(ServedModels(registry, SelectedNames(env)))) == "r,r"
  {
    var registry := [Model("a", "r", ""), Model("b", "r", "")];
    var names := ["a", "b"];
    TwoNames(env);
    assert LeadsTo(registry, "a", 0) && LeadsTo(registry, "b", 1);
    hide SelectedNames, Lookup;
    LookupFindsLast(registry, "a", 0);
    LookupFindsLast(registry, "b", 1);
    assert ServedModels(registry, names) == registry by {
      assert names[..1] == ["a"] && ["a"][..0] == [];
    }
    assert Repos(registry) == ["r", "r"];
    assert ["r", "r"][1..] == ["r"];
  }

  lemma TwoNames(env: Env)
    requires Get(env, "MODEL_NAMES") == "a,b"
    ensures SelectedNames(env) == ["a", "b"]
  {
    var names := ["a", "b"];
    hide SplitOn;
    assert Join(",", names) == "a,b" by { assert names[1..] == ["b"]; }
    SplitJoined(names);
    assert names[..1] == ["a"] && ["a"][..0] == [];
    assert Strip("a") == "a" && Strip("b") == "b";
  }

  lemma DistinctRepos(byKey: map<string, Model>, names: seq<string>, picked: seq<Model>)
    requires Selection(byKey, names, picked)
    ensures PairwiseDifferent(Repos(picked)) <==> forall m, n | m in picked && n in picked && m != n :: m.repo != n.repo
  {
    hide First;
    var places := Positions(byKey, names, picked);
    assert forall a, b | 0 <= a < b < |picked| :: places[a] != places[b];
    assert forall a, b | 0 <= a < b < |picked| :: picked[a] != picked[b];
    var repos := Repos(picked);
    if forall a, b | 0 <= a < b < |picked| :: repos[a] != repos[b] {
      forall m, n | m in picked && n in picked && m != n ensures m.repo != n.repo {
        var a, b :| 0 <= a < |picked| && 0 <= b < |picked| && picked[a] == m && picked[b] == n;
        assert repos[a] != repos[b];
      }
    } else {
      var a, b :| 0 <= a < b < |picked| && repos[a] == repos[b];
      assert picked[a] in picked && picked[b] in picked;
    }
  }

  /** The default is the model that `DEFAULT_MODEL` leads to, or the first one picked if none is named. It is refused if
      that model is not among those picked. */
  lemma DefaultIsNamed(env: Env, registry: seq<Model>, i: int)
    requires Resolve(Lookup(registry), SelectedNames(env)).Some? && SelectedNames(env) != []
    ensures var c := Choose(env, registry);
            var picked := Resolve(Lookup(registry), SelectedNames(env)).value;
            var key := Strip(Get(env, "DEFAULT_MODEL"));
            && picked != []
            && (key == "" ==> c == Some(Choice(picked, picked[0])))
            && (key != "" && LeadsTo(registry, key, i) ==>
                  c == if registry[i] in picked then Some(Choice(picked, registry[i])) else None)
            && (key != "" && (forall m | m in registry :: m.name != key && m.repo != key) ==> c == None)
  {
    var key := Strip(Get(env, "DEFAULT_MODEL"));
    ResolvedNotEmpty(Lookup(registry), SelectedNames(env));
    LookupKeys(registry, key);
    if LeadsTo(registry, key, i) { KeyLeads(registry, key, i); }
    hide Strip, Lookup, Resolve, SelectedNames;
  }

  /** The names asked for are the stripped parts of `MODEL_NAMES` that are not blank, in order. */
  lemma {:induction false} NamesAreParts(parts: seq<string>)
    ensures forall n :: n in StripAll(parts) <==> n != "" && exists p :: p in parts && n == Strip(p)
    ensures |StripAll(parts)| <= |parts|
    ensures (forall p | p in parts :: Strip(p) == p && p != "") ==> StripAll(parts) == parts
  {
    hide Strip;
    if parts != [] {
      var init, last := parts[..|parts| - 1], parts[|parts| - 1];
      NamesAreParts(init);
      assert parts == init + [last];
    }
  }

  // ---------------------------------------------------------------- what the container is told

  const INPUTS := {"MODEL_NAMES", "DEFAULT_MODEL", "ALLOW_ONLINE_MODEL", "MODELS_REPOS", "DEFAULT_REPO", "MODELS_OFFLINE"}

  /** The container environment the builder derives from the deployment's. */
  method BuildEnv(env: Env, embedding: bool) returns (out: Env)
    ensures out == Container(env, if embedding then "EMBED_" else "RERANK_")
  {
    var prefix := if embedding then "EMBED_" else "RERANK_";
    out := env - INPUTS;
    var repos, standard, offline := Get(env, "MODELS_REPOS"), Get(env, "DEFAULT_REPO"), Get(env, "MODELS_OFFLINE");
    if repos != "" {
      out := out[prefix + "MODELS" := repos];
      out := out[prefix + "DEFAULT_MODEL" := if standard != "" then standard else SplitOn(repos, ',')[0]];
    }
    if offline != "" {
      out := out["HF_HUB_OFFLINE" := "1"];
      out := out["TRANSFORMERS_OFFLINE" := "1"];
    }
  }

  function Container(env: Env, prefix: string): Env {
    var repos, standard := Get(env, "MODELS_REPOS"), Get(env, "DEFAULT_REPO");
    var e := env - INPUTS;
    var served := if repos == "" then e
                  else e[prefix + "MODELS" := repos]
                        [prefix + "DEFAULT_MODEL" := if standard != "" then standard else SplitOn(repos, ',')[0]];
    if Get(env, "MODELS_OFFLINE") == "" then served else served["HF_HUB_OFFLINE" := "1"]["TRANSFORMERS_OFFLINE" := "1"]
  }

  lemma KeysDiffer(prefix: string)
    requires prefix == "EMBED_" || prefix == "RERANK_"
    ensures prefix + "MODELS" != prefix + "DEFAULT_MODEL"
    ensures forall k | k in {prefix + "MODELS", prefix + "DEFAULT_MODEL", "HF_HUB_OFFLINE", "TRANSFORMERS_OFFLINE"} :: k !in INPUTS
    ensures {prefix + "MODELS", prefix + "DEFAULT_MODEL"} !! {"HF_HUB_OFFLINE", "TRANSFORMERS_OFFLINE"}
    ensures "MODELS_REPOS" != "DEFAULT_REPO" && "MODELS_REPOS" != "MODELS_OFFLINE" && "DEFAULT_REPO" != "MODELS_OFFLINE"
  {
    assert |prefix + "MODELS"| != |prefix + "DEFAULT_MODEL"|;
    assert prefix[0] == 'E' || prefix[0] == 'R';
    assert (prefix + "MODELS")[0] == prefix[0] && (prefix + "DEFAULT_MODEL")[0] == prefix[0];
    assert "MODEL_NAMES"[0] == 'M' && "MODELS_REPOS"[0] == 'M' && "MODELS_OFFLINE"[0] == 'M';
    assert "DEFAULT_MODEL"[0] == 'D' && "DEFAULT_REPO"[0] == 'D' && "ALLOW_ONLINE_MODEL"[0] == 'A';
    assert "HF_HUB_OFFLINE"[0] == 'H' && "TRANSFORMERS_OFFLINE"[0] == 'T';
    assert |"MODELS_REPOS"| == 12 && |"MODELS_OFFLINE"| == 14;
  }

  lemma ChoiceIsServed(env: Env, registry: seq<Model>)
    ensures Choose(env, registry).Some? ==>
              var c := Choose(env, registry).value; c.picked != [] && c.standard in c.picked
  {
    hide Strip, SelectedNames, Lookup, Resolve;
  }

  /** Preparing and then building: the container serves the selected repositories, can split the list again exactly
      when no repository holds a comma, has one of them as default, is cut off from the hub exactly when every model
      served was in the store, and sees none of the inputs of the preparation. */
  lemma ContainerServesSelection(env: Env, registry: seq<Model>, stored: string -> bool, prefix: string)
    requires Choose(env, registry).Some? && (prefix == "EMBED_" || prefix == "RERANK_")
    requires "MODELS_OFFLINE" !in env && "HF_HUB_OFFLINE" !in env
    requires forall m | m in Choose(env, registry).value.picked :: m.repo != ""
    ensures var c := Choose(env, registry).value;
            var out := Container(Stash(env, c, AllStored(c.picked, stored)), prefix);
            && prefix + "MODELS" in out
            && (SplitOn(out[prefix + "MODELS"], ',') == Repos(c.picked) <==> forall m | m in c.picked :: ',' !in m.repo)
            && prefix + "DEFAULT_MODEL" in out && out[prefix + "DEFAULT_MODEL"] == c.standard.repo
            && c.standard.repo in Repos(c.picked)
            && ("HF_HUB_OFFLINE" in out <==> AllStored(c.picked, stored))
            && out.Keys !! {"MODEL_NAMES", "DEFAULT_MODEL", "ALLOW_ONLINE_MODEL", "MODELS_REPOS", "DEFAULT_REPO", "MODELS_OFFLINE"}
  {
    ChoiceIsServed(env, registry);
    hide Choose, AllStored, SplitOn, Strip;
    var c := Choose(env, registry).value;
    var repos, offline := Repos(c.picked), AllStored(c.picked, stored);
    assert forall i | 0 <= i < |c.picked| :: c.picked[i] in c.picked && repos[i] == c.picked[i].repo && repos[i] in repos;
    assert c.standard.repo in repos by {
      var i :| 0 <= i < |c.picked| && c.picked[i] == c.standard;
      assert repos[i] == c.standard.repo;
    }
    SplitJoined(repos);
    JoinNotEmpty(repos);
    StashedContainer(env, c, offline, prefix);
  }

  lemma JoinNotEmpty(parts: seq<string>)
    requires parts != [] && forall p | p in parts :: p != ""
    ensures Join(",", parts) != ""
  {
    assert parts[0] in parts;
  }

  lemma StashedContainer(env: Env, c: Choice, offline: bool, prefix: string)
    requires prefix == "EMBED_" || prefix == "RERANK_"
    requires "MODELS_OFFLINE" !in env && "HF_HUB_OFFLINE" !in env
    requires Join(",", Repos(c.picked)) != "" && c.standard.repo != ""
    ensures var out := Container(Stash(env, c, offline), prefix);
            && prefix + "MODELS" in out && out[prefix + "MODELS"] == Join(",", Repos(c.picked))
            && prefix + "DEFAULT_MODEL" in out && out[prefix + "DEFAULT_MODEL"] == c.standard.repo
            && ("HF_HUB_OFFLINE" in out <==> offline)
            && out.Keys !! INPUTS
  {
    hide Join, Repos, SplitOn;
    KeysDiffer(prefix);
    var stash := Stash(env, c, offline);
    assert Get(stash, "MODELS_REPOS") == Join(",", Repos(c.picked));
    assert Get(stash, "DEFAULT_REPO") == c.standard.repo;
    assert Get(stash, "MODELS_OFFLINE") == if offline then "1" else "";
  }
}
