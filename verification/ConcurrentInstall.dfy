/** Several installations of one target at once (agent/app/modelmgr/service.py): nothing keeps them apart, and all of
    them unpack into the same working directory. */
module ConcurrentInstall {
  import opened Wrappers
  import opened ModelInstall

  /** Where an installation stands. Extraction and layout run in threads of their own, so between any two steps others may
      run; extraction writes one file at a time. */
  datatype Phase = Downloaded | Extracting(done: set<Path>) | Extracted | Finalized | Marked | Ended

  datatype State = State(
    work: Option<Tree>,        // the shared working directory
    target: Option<Tree>,
    phases: seq<Phase>,
    busy: Option<nat>,         // the installation that keeps the event loop between its marker and its rename
    owner: Option<nat>,        // history: the installation that cleared the working directory, if nobody else has touched it since
    writers: map<Path, nat>)   // history: who wrote each file since the working directory was last cleared or taken away

  datatype Event =
    | Clear(i: nat)
    | Write(i: nat, path: Path)
    | FinishExtraction(i: nat)
    | Stop(i: nat)                   // extraction fails
    | Finalize(i: nat, left: Tree)   // `left` is what a failing layout leaves behind
    | Mark(i: nat)
    | Swap(i: nat)                   // removal of the target and rename

  datatype Setup = Setup(unpack: string -> Tree, infos: seq<Info>) {
    function Archive(i: nat): Tree
      requires i < |infos|
    {
      unpack(infos[i].sha)
    }

    /** What the i-th request asks for, but for the marker. */
    function Asked(i: nat): Option<Tree>
      requires i < |infos|
    {
      Final(Archive(i), infos[i])
    }
  }

  ghost predicate Initial(c: Setup, s: State) {
    && s.work.None? && s.owner.None? && s.busy.None? && s.writers == map[] && |s.phases| == |c.infos|
    && (forall i | 0 <= i < |s.phases| :: s.phases[i].Downloaded?)
    && HonestTarget(c, s)
  }

  /** A target with a readable marker is complete. */
  ghost predicate HonestTarget(c: Setup, s: State) { s.target.Some? ==> Honest(c.unpack, s.target.value) }

  /** One step; None when it is not possible now. */
  function Step(c: Setup, s: State, e: Event): (next: Option<State>)
    requires |s.phases| == |c.infos|
    ensures next.Some? ==> |next.value.phases| == |c.infos|
  {
    if e.i >= |s.phases| then None
    else
      match e
      case Clear(i) =>
        if !s.phases[i].Downloaded? || s.busy.Some? then None
        else Some(s.(work := Some(map[]), owner := Some(i), writers := map[], phases := s.phases[i := Extracting({})]))
      case Write(i, p) =>
        if !s.phases[i].Extracting? || p !in c.Archive(i) || p in s.phases[i].done then None
        else
          var t := if s.work.Some? then s.work.value else map[];
          Some(s.(work := Some(t[p := c.Archive(i)[p]]), owner := if s.owner == Some(i) then s.owner else None,
                  writers := s.writers[p := i], phases := s.phases[i := Extracting(s.phases[i].done + {p})]))
      case FinishExtraction(i) =>
        if !s.phases[i].Extracting? || s.phases[i].done != c.Archive(i).Keys then None
        else Some(s.(phases := s.phases[i := Extracted]))
      case Stop(i) =>
        if !s.phases[i].Extracting? then None
        else Some(s.(owner := if s.owner == Some(i) then None else s.owner, phases := s.phases[i := Ended]))
      case Finalize(i, left) =>
        if !s.phases[i].Extracted? then None
        else if c.infos[i].layout != "hf-cache" then Some(s.(phases := s.phases[i := Finalized]))
        else if s.work.None? then Some(s.(phases := s.phases[i := Ended]))
        else if Final(s.work.value, c.infos[i]).Some? then
          Some(s.(work := Final(s.work.value, c.infos[i]), owner := if s.owner == Some(i) then s.owner else None,
                  phases := s.phases[i := Finalized]))
        else Some(s.(work := Some(left), owner := None, phases := s.phases[i := Ended]))
      case Mark(i) =>
        if !s.phases[i].Finalized? || s.busy.Some? then None
        else if s.work.None? then Some(s.(phases := s.phases[i := Ended]))
        else
          Some(s.(work := Some(s.work.value[MARKER := Marker(c.infos[i])]), owner := if s.owner == Some(i) then s.owner else None,
                  busy := Some(i), phases := s.phases[i := Marked]))
      case Swap(i) =>
        if s.busy != Some(i) || !s.phases[i].Marked? || s.work.None? then None
        else
          Some(s.(work := None, owner := None, busy := None, writers := map[], phases := s.phases[i := Ended],
                  target := s.work))
  }

  function Run(c: Setup, s: State, events: seq<Event>): (end: Option<State>)
    requires |s.phases| == |c.infos|
    ensures end.Some? ==> |end.value.phases| == |c.infos|
  {
    if events == [] then Some(s)
    else
      match Run(c, s, events[..|events| - 1])
      case None => None
      case Some(before) => Step(c, before, events[|events| - 1])
  }

  // ---------------------------------------------------------------- what the working directory holds

  function Part(t: Tree, paths: set<Path>): Tree { map p | p in t && p in paths :: t[p] }

  /** What the owner of the working directory has put there so far. */
  ghost predicate OwnerOk(c: Setup, s: State) {
    s.owner.Some? ==>
      var i := s.owner.value;
      && i < |s.phases| == |c.infos| && s.work.Some?
      && match s.phases[i]
         case Extracting(done) => s.work.value == Part(c.Archive(i), done)
         case Extracted => s.work.value == c.Archive(i)
         case Finalized => s.work == c.Asked(i)
         case Marked => c.Asked(i).Some? && s.work.value == c.Asked(i).value[MARKER := Marker(c.infos[i])]
         case _ => false
  }

  /** Who keeps the event loop is about to swap, and has a working directory. */
  ghost predicate BusyOk(s: State) {
    s.busy.Some? ==> s.busy.value < |s.phases| && s.phases[s.busy.value].Marked? && s.work.Some?
  }

  lemma StepKeepsOwner(c: Setup, s: State, e: Event)
    requires |s.phases| == |c.infos| && OwnerOk(c, s) && Step(c, s, e).Some?
    ensures OwnerOk(c, Step(c, s, e).value)
  {
    match e
    case Clear(i) => assert Part(c.Archive(i), {}) == map[];
    case Write(i, p) =>
      hide Final;
      if s.owner == Some(i) {
        var t, done := c.Archive(i), s.phases[i].done;
        assert Part(t, done)[p := t[p]] == Part(t, done + {p});
      }
    case FinishExtraction(i) =>
      hide Final;
      assert Part(c.Archive(i), c.Archive(i).Keys) == c.Archive(i);
    case Stop(_) => hide Final;
    case Finalize(i, _) => FlatIsFinal(c, i); hide Final;
    case Mark(_) => hide Final;
    case Swap(_) => hide Final;
  }

  lemma StepKeepsBusy(c: Setup, s: State, e: Event)
    requires |s.phases| == |c.infos| && BusyOk(s) && Step(c, s, e).Some?
    ensures BusyOk(Step(c, s, e).value)
  {
    hide Final;
  }

  lemma FlatIsFinal(c: Setup, i: nat)
    requires i < |c.infos|
    ensures c.infos[i].layout != "hf-cache" ==> c.Asked(i) == Some(c.Archive(i))
  {}

  ghost predicate Flat(c: Setup) { forall i | 0 <= i < |c.infos| :: c.infos[i].layout != "hf-cache" }

  /** No two archives have a file in common, and none holds a file of the marker's name. */
  ghost predicate Disjoint(c: Setup) {
    && (forall i, j, p | 0 <= i < |c.infos| && 0 <= j < |c.infos| && p in c.Archive(i) && p in c.Archive(j) :: i == j)
    && (forall i | 0 <= i < |c.infos| :: MARKER !in c.Archive(i))
  }

  /** With flat layouts, the working directory holds what its writers have written, and the marker of the one that is
      about to swap. */
  ghost predicate WritersOk(c: Setup, s: State) {
    s.work.Some? ==>
      && s.work.value.Keys - {MARKER} == s.writers.Keys
      && (forall p | p in s.writers ::
            s.writers[p] < |c.infos| && p in c.Archive(s.writers[p]) && s.work.value[p] == c.Archive(s.writers[p])[p])
      && (s.busy.Some? && s.busy.value < |c.infos| ==>
            MARKER in s.work.value && s.work.value[MARKER] == Marker(c.infos[s.busy.value]))
  }

  ghost predicate NoWork(s: State) { s.work.None? ==> s.writers == map[] }

  lemma StepKeepsWriters(c: Setup, s: State, e: Event)
    requires |s.phases| == |c.infos| && Flat(c) && Disjoint(c) && BusyOk(s)
    requires WritersOk(c, s) && NoWork(s) && Step(c, s, e).Some?
    ensures WritersOk(c, Step(c, s, e).value) && NoWork(Step(c, s, e).value)
  {
    hide Final;
  }

  /** Nobody waits for ever: an unfinished installation can take a step of its own, or the one that keeps the event loop
      can. An extraction can also fail at any point, which leaves what is there. */
  lemma SomeStepIsPossible(c: Setup, s: State, i: nat) returns (e: Event)
    requires |s.phases| == |c.infos| && i < |s.phases| && !s.phases[i].Ended? && BusyOk(s)
    requires s.phases[i].Marked? ==> s.busy == Some(i)
    requires s.phases[i].Extracting? ==> s.phases[i].done <= c.Archive(i).Keys
    ensures Step(c, s, e).Some? && (e.i == i || s.busy == Some(e.i))
    ensures s.phases[i].Extracting? ==>
              var stopped := Step(c, s, Stop(i));
              stopped.Some? && stopped.value.phases == s.phases[i := Ended] && stopped.value.work == s.work
  {
    hide Final;
    match s.phases[i]
    case Downloaded => e := if s.busy.Some? then Swap(s.busy.value) else Clear(i);
    case Extracting(done) =>
      if done == c.Archive(i).Keys {
        e := FinishExtraction(i);
      } else {
        var p :| p in c.Archive(i).Keys && p !in done;
        e := Write(i, p);
      }
    case Extracted => e := Finalize(i, map[]);
    case Finalized => e := if s.busy.Some? then Swap(s.busy.value) else Mark(i);
    case Marked => e := Swap(i);
  }

  // ---------------------------------------------------------------- one swap

  /** For every layout: a swap that takes its own marker along leaves the target honest if and only if the rest is what
      was asked for. */
  lemma SwapIsHonest(c: Setup, s: State, i: nat)
    requires |s.phases| == |c.infos| && Step(c, s, Swap(i)).Some?
    requires MARKER in s.work.value && s.work.value[MARKER] == Marker(c.infos[i])
    ensures HonestTarget(c, Step(c, s, Swap(i)).value)
       <==> c.Asked(i).Some? && s.work.value - {MARKER} == c.Asked(i).value - {MARKER}
  {
    hide Final;
    var marker, t := Marker(c.infos[i]), s.work.value;
    if c.Asked(i).Some? {
      var a := c.Asked(i).value;
      assert a[MARKER := marker] - {MARKER} == a - {MARKER};
      if t - {MARKER} == a - {MARKER} { SameWithMarker(t, a, marker); }
    }
  }

  lemma SameWithMarker(t: Tree, a: Tree, marker: File)
    requires t - {MARKER} == a - {MARKER} && MARKER in t && t[MARKER] == marker
    ensures t == a[MARKER := marker]
  {
    forall p | p != MARKER ensures (p in t <==> p in a) && (p in t ==> t[p] == a[p]) {
      assert p in t - {MARKER} <==> p in a - {MARKER};
      assert p in t ==> (t - {MARKER})[p] == (a - {MARKER})[p];
    }
  }

  lemma OtherStepsKeepTarget(c: Setup, s: State, e: Event)
    requires |s.phases| == |c.infos| && Step(c, s, e).Some? && !e.Swap?
    ensures HonestTarget(c, Step(c, s, e).value) <==> HonestTarget(c, s)
  {
    hide Final, Honest;
  }

  lemma OwnSwapIsHonest(c: Setup, s: State, i: nat)
    requires |s.phases| == |c.infos| && OwnerOk(c, s) && Step(c, s, Swap(i)).Some? && s.owner == Some(i)
    ensures HonestTarget(c, Step(c, s, Swap(i)).value)
  {
    hide Final;
    var a := c.Asked(i).value;
    assert a[MARKER := Marker(c.infos[i])] - {MARKER} == a - {MARKER};
    SwapIsHonest(c, s, i);
  }

  /** Since the working directory was last cleared or taken away, the installation has written all its files, and
      nobody else has written any. */
  ghost predicate OwnFiles(c: Setup, s: State, i: nat) {
    i < |c.infos| && s.writers == map p | p in c.Archive(i) :: i
  }

  lemma FlatSwap(c: Setup, s: State, i: nat)
    requires |s.phases| == |c.infos| && Flat(c) && Disjoint(c) && WritersOk(c, s) && Step(c, s, Swap(i)).Some?
    ensures HonestTarget(c, Step(c, s, Swap(i)).value) <==> OwnFiles(c, s, i)
  {
    SwapIsHonest(c, s, i);
    FlatIsFinal(c, i);
    hide Final, Step, HonestTarget;
    var t, a := s.work.value, c.Archive(i);
    assert a - {MARKER} == a;
    if t - {MARKER} == a {
      forall p ensures (p in s.writers <==> p in a) && (p in s.writers ==> s.writers[p] == i) {
        assert p in t - {MARKER} <==> p in a;
      }
    }
  }

  // ---------------------------------------------------------------- whole runs

  ghost predicate AlwaysHonest(c: Setup, s: State, events: seq<Event>)
    requires |s.phases| == |c.infos|
  {
    forall k: nat | k <= |events| && Run(c, s, events[..k]).Some? :: HonestTarget(c, Run(c, s, events[..k]).value)
  }

  /** Every installation that swaps has been alone with the working directory since it cleared it. */
  ghost predicate Alone(s: State, e: Event) { e.Swap? ==> s.owner == Some(e.i) }

  /** Every installation that swaps finds its own files, all of them and no others. */
  ghost predicate Unmixed(c: Setup, s: State, e: Event) { e.Swap? ==> OwnFiles(c, s, e.i) }

  ghost predicate AlwaysAlone(c: Setup, s: State, events: seq<Event>)
    requires |s.phases| == |c.infos|
  {
    forall k: nat | k < |events| && Run(c, s, events[..k]).Some? :: Alone(Run(c, s, events[..k]).value, events[k])
  }

  ghost predicate AlwaysUnmixed(c: Setup, s: State, events: seq<Event>)
    requires |s.phases| == |c.infos|
  {
    forall k: nat | k < |events| && Run(c, s, events[..k]).Some? :: Unmixed(c, Run(c, s, events[..k]).value, events[k])
  }

  lemma Prefixes(events: seq<Event>)
    requires events != []
    ensures var n := |events| - 1;
            && events[..|events|] == events && events[..n][..n] == events[..n]
            && forall k: nat | k < n :: events[..n][..k] == events[..k] && events[..n][k] == events[k]
  {}

  lemma HonestSoFar(c: Setup, s: State, events: seq<Event>)
    requires |s.phases| == |c.infos| && events != [] && Run(c, s, events).Some?
    ensures AlwaysHonest(c, s, events)
       <==> AlwaysHonest(c, s, events[..|events| - 1]) && HonestTarget(c, Run(c, s, events).value)
  {
    hide Run, HonestTarget;
    Prefixes(events);
  }

  lemma AloneSoFar(c: Setup, s: State, events: seq<Event>)
    requires |s.phases| == |c.infos| && events != [] && Run(c, s, events[..|events| - 1]).Some?
    ensures var n := |events| - 1;
            AlwaysAlone(c, s, events) <==> AlwaysAlone(c, s, events[..n]) && Alone(Run(c, s, events[..n]).value, events[n])
  {
    hide Run, Alone;
    Prefixes(events);
  }

  lemma UnmixedSoFar(c: Setup, s: State, events: seq<Event>)
    requires |s.phases| == |c.infos| && events != [] && Run(c, s, events[..|events| - 1]).Some?
    ensures var n := |events| - 1;
            (AlwaysUnmixed(c, s, events)
             <==> AlwaysUnmixed(c, s, events[..n]) && Unmixed(c, Run(c, s, events[..n]).value, events[n]))
  {
    hide Run, Unmixed;
    Prefixes(events);
  }

  lemma LastIsHonest(c: Setup, s: State, events: seq<Event>)
    requires |s.phases| == |c.infos| && Run(c, s, events).Some?
    ensures AlwaysHonest(c, s, events) ==> HonestTarget(c, Run(c, s, events).value)
  {
    hide Run, HonestTarget;
    assert events[..|events|] == events;
  }

  lemma AtFirst(c: Setup, s: State)
    requires Initial(c, s)
    ensures OwnerOk(c, s) && BusyOk(s) && WritersOk(c, s) && NoWork(s)
    ensures AlwaysHonest(c, s, []) && AlwaysAlone(c, s, []) && AlwaysUnmixed(c, s, [])
  {
    hide HonestTarget;
    var none: seq<Event> := [];
    assert none[..0] == none;
  }

  /** Installations in any interleaving, file by file: if each is alone with the working directory from clearing it to its
      swap, a marker in the target always means a complete tree. For flat layouts and archives without common files it
      always does if and only if every swap finds all files of its own installation and no others. */
  lemma {:induction false} InstallsMustNotMix(c: Setup, s: State, events: seq<Event>)
    requires Initial(c, s) && Run(c, s, events).Some?
    ensures AlwaysAlone(c, s, events) ==> AlwaysHonest(c, s, events)
    ensures Flat(c) && Disjoint(c) ==> (AlwaysHonest(c, s, events) <==> AlwaysUnmixed(c, s, events))
    ensures OwnerOk(c, Run(c, s, events).value) && BusyOk(Run(c, s, events).value)
    ensures Flat(c) && Disjoint(c) ==> WritersOk(c, Run(c, s, events).value) && NoWork(Run(c, s, events).value)
  {
    hide Step, OwnerOk, WritersOk, NoWork, HonestTarget, AlwaysHonest, AlwaysAlone, AlwaysUnmixed, OwnFiles, Flat, Disjoint, BusyOk;
    if events == [] {
      AtFirst(c, s);
    } else {
      var n := |events| - 1;
      var init, e := events[..n], events[n];
      var before := Run(c, s, init).value;
      InstallsMustNotMix(c, s, init);
      StepKeepsOwner(c, before, e);
      StepKeepsBusy(c, before, e);
      if Flat(c) && Disjoint(c) { StepKeepsWriters(c, before, e); }
      HonestSoFar(c, s, events);
      AloneSoFar(c, s, events);
      UnmixedSoFar(c, s, events);
      LastIsHonest(c, s, init);
      if !e.Swap? {
        OtherStepsKeepTarget(c, before, e);
      } else {
        if before.owner == Some(e.i) { OwnSwapIsHonest(c, before, e.i); }
        if Flat(c) && Disjoint(c) { FlatSwap(c, before, e.i); }
      }
    }
  }

  lemma RunSnoc(c: Setup, s: State, events: seq<Event>, e: Event)
    requires |s.phases| == |c.infos|
    ensures Run(c, s, events + [e]) == if Run(c, s, events).Some? then Step(c, Run(c, s, events).value, e) else None
  {
    hide Step;
    assert (events + [e])[..|events|] == events;
  }

  /** Two archives of one file each. The second installation clears the working directory and writes its file before the
      first one puts its marker on what is there. */
  lemma OverlapLies(c: Setup, s: State)
    requires Initial(c, s) && Flat(c) && |c.infos| == 2
    requires c.Archive(0) == map[["a"] := Bytes("")] && c.Archive(1) == map[["b"] := Bytes("")]
    ensures var events := [Clear(0)] + [Write(0, ["a"])] + [FinishExtraction(0)] + [Clear(1)] + [Write(1, ["b"])]
                          + [Finalize(0, map[])] + [Mark(0)] + [Swap(0)];
            Run(c, s, events).Some? && !HonestTarget(c, Run(c, s, events).value)
  {
    var a: Path, b: Path := ["a"], ["b"];
    FlatIsFinal(c, 0);
    hide Final, Honest;
    assert a[0] == "a" && b[0] == "b" && "a"[0] == 'a' && "b"[0] == 'b';
    var e3 := [Clear(0)] + [Write(0, a)] + [FinishExtraction(0)];
    var s3 := FirstUnpacks(c, s);
    var s4 := Step(c, s3, Clear(1)).value;
    var s5 := Step(c, s4, Write(1, b)).value;
    var s6 := Step(c, s5, Finalize(0, map[])).value;
    var s7 := Step(c, s6, Mark(0)).value;
    assert s6.work == Some(map[b := Bytes("")]) && Step(c, s7, Swap(0)).Some?;
    SwapIsHonest(c, s7, 0);
    NotTheMarker(a);
    assert a in c.Archive(0) - {MARKER} && a !in s7.work.value - {MARKER};
    hide Step, HonestTarget;
    var e4 := e3 + [Clear(1)];
    var e5 := e4 + [Write(1, b)];
    var e6 := e5 + [Finalize(0, map[])];
    RunSnoc(c, s, e3, Clear(1));
    RunSnoc(c, s, e4, Write(1, b));
    RunSnoc(c, s, e5, Finalize(0, map[]));
    RunSnoc(c, s, e6, Mark(0));
    RunSnoc(c, s, e6 + [Mark(0)], Swap(0));
  }

  lemma NotTheMarker(p: Path)
    requires p == ["a"]
    ensures p != MARKER
  {
    assert |"a"| != |MARKER_NAME| && MARKER[0] == MARKER_NAME && p[0] == "a";
  }

  lemma FirstUnpacks(c: Setup, s: State) returns (next: State)
    requires Initial(c, s) && |c.infos| == 2 && c.Archive(0) == map[["a"] := Bytes("")]
    ensures Run(c, s, [Clear(0)] + [Write(0, ["a"])] + [FinishExtraction(0)]) == Some(next)
    ensures next.phases == [Extracted, Downloaded] && next.busy.None?
  {
    var a: Path := ["a"];
    hide Final, Honest;
    var s1 := Step(c, s, Clear(0)).value;
    var s2 := Step(c, s1, Write(0, a)).value;
    next := Step(c, s2, FinishExtraction(0)).value;
    hide Step;
    var none: seq<Event>, e1 := [], [Clear(0)];
    assert none + e1 == e1;
    RunSnoc(c, s, none, Clear(0));
    RunSnoc(c, s, e1, Write(0, a));
    RunSnoc(c, s, e1 + [Write(0, a)], FinishExtraction(0));
  }
}
