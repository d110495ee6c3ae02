/** Model installation of agent/app/modelmgr/service.py on a crash-prone volume. Every change of the volume is
    recorded in a journal, so what holds of all journal entries holds after a crash at any point. */
module ModelInstall {
  import opened Wrappers

  // A directory tree is the map from the paths of its files to their contents. `unpack` gives the tree of
  // the archive with a given sha256, which is what makes the digest identify the archive. Removing a
  // directory tree and renaming one are single steps.

  type Path = seq<string>
  type Tree = map<Path, File>
  type Dirs = map<string, Tree>

  const MARKER: Path := [".model-manifest.json"]
  const MARKER_NAME := ".model-manifest.json"

  /** The part of a request that the marker records. */
  datatype Info = Info(sha: string, archive: string, layout: string, revision: Path, size: nat)

  datatype Request = Request(subdir: string, repo: string, info: Info)

  /** A file is a marker that parses, or anything else. */
  datatype File = Bytes(data: string) | Marker(info: Info)

  datatype Result = Skipped | Installed | Failed

  /** What the outside world does during one call: the digest of what the URL delivers, if the download
      succeeds, and how many files can be extracted before something goes wrong. */
  datatype Reply = Reply(download: Option<string>, files: nat)

  function Dashed(repo: string): string {
    if repo == "" then "" else (if repo[0] == '/' then "--" else [repo[0]]) + Dashed(repo[1..])
  }

  /** `_target_dir`: none for an hf-cache request without a repository. */
  function TargetDir(req: Request): Option<string> {
    if req.info.layout == "hf-cache" then
      if req.repo == "" then None else Some("models--" + Dashed(req.repo))
    else Some(req.subdir)
  }

  function WorkDir(target: string): string { target + ".tmp" }

  // ---------------------------------------------------------------- layouts

  /** An entry of the working directory that stays where it is. */
  predicate Stays(p: Path) { p != [] && p[0] in {"snapshots", MARKER_NAME} }

  function Snapshot(revision: Path): Path { ["snapshots"] + revision }

  function Joined(p: Path): string {
    if p == [] then "" else if |p| == 1 then p[0] else p[0] + "/" + Joined(p[1..])
  }

  /** Creating `snapshots/<revision>` fails when its parent exists already, or is blocked by a file. */
  predicate CanSnapshot(t: Tree, revision: Path) {
    && revision != []
    && var parent := Snapshot(revision)[..|revision|];
       forall p | p in t :: !(p <= parent) && !(parent <= p)
  }

  predicate Under(p: Path, entries: set<string>) { p != [] && p[0] in entries }

  /** The tree after the top-level entries in `moved` have been renamed to below `snap`. */
  function Rearranged(t: Tree, snap: Path, moved: set<string>): Tree {
    (map p | p in t && !Under(p, moved) :: t[p])
    + (map q | q in (set p | p in t && Under(p, moved) :: snap + p) :: t[q[|snap|..]])
  }

  /** The top-level entries to move: all but `snapshots` and a marker. */
  function Entries(t: Tree): set<string> {
    set p | p in t && p != [] && !Stays(p) :: p[0]
  }

  /** The finalized tree: a flat one is as extracted; in the hf-cache layout the entries move below
      `snapshots/<revision>`, and `refs/main` names the revision. */
  function Final(t: Tree, info: Info): Option<Tree> {
    if info.layout != "hf-cache" then Some(t)
    else if !CanSnapshot(t, info.revision) then None
    else Some(Rearranged(t, Snapshot(info.revision), Entries(t))[["refs", "main"] := Bytes(Joined(info.revision))])
  }

  /** A complete installation of the archive with the recorded digest. */
  function Complete(unpack: string -> Tree, info: Info): Option<Tree> {
    match Final(unpack(info.sha), info)
    case None => None
    case Some(t) => Some(t[MARKER := Marker(info)])
  }

  /** A directory with a readable marker holds the complete finalized tree of the archive it names. */
  ghost predicate Honest(unpack: string -> Tree, t: Tree) {
    MARKER in t && t[MARKER].Marker? ==> Complete(unpack, t[MARKER].info) == Some(t)
  }

  /** Safety of the directories that are installation targets; nothing is said about working directories. */
  ghost predicate Safe(unpack: string -> Tree, dirs: Dirs, targets: set<string>) {
    forall d | d in dirs && d in targets :: Honest(unpack, dirs[d])
  }

  function MarkerSha(dirs: Dirs, target: string): Option<string> {
    if target in dirs && MARKER in dirs[target] && dirs[target][MARKER].Marker?
    then Some(dirs[target][MARKER].info.sha) else None
  }

  lemma RearrangedAt(t: Tree, snap: Path, moved: set<string>, q: Path)
    ensures q in Rearranged(t, snap, moved) <==>
              (q in t && !Under(q, moved)) || (snap <= q && q[|snap|..] in t && Under(q[|snap|..], moved))
    ensures snap <= q && q[|snap|..] in t && Under(q[|snap|..], moved) ==> Rearranged(t, snap, moved)[q] == t[q[|snap|..]]
    ensures q in t && !Under(q, moved) && !(snap <= q) ==> Rearranged(t, snap, moved)[q] == t[q]
  {
    if snap <= q { assert q == snap + q[|snap|..]; }
    forall p | p in t && Under(p, moved) ensures (snap + p)[|snap|..] == p {}
  }

  /** The entries that the hf-cache layout moves. */
  ghost predicate Moves(p: Path) { p != [] && p[0] != "snapshots" && p[0] != ".model-manifest.json" }

  /** The hf-cache layout: every file of the archive is found below `snapshots/<revision>`, but for what is already named
      `snapshots` or like the marker; `refs/main` holds the revision; and there is nothing else. */
  lemma SnapshotLayout(t: Tree, info: Info)
    requires info.layout == "hf-cache" && Final(t, info).Some?
    ensures var out := Final(t, info).value;
            && (forall p | p in t && Moves(p) ::
                  ["snapshots"] + info.revision + p in out && out[["snapshots"] + info.revision + p] == t[p])
            && ["refs", "main"] in out && out[["refs", "main"]] == Bytes(Joined(info.revision))
            && (forall p | p in t && !Moves(p) :: p in out && out[p] == t[p])
            && (forall q | q in out ::
                  || q == ["refs", "main"]
                  || (q in t && !Moves(q))
                  || (exists p :: p in t && Moves(p) && q == ["snapshots"] + info.revision + p))
  {
    var out, snap := Final(t, info).value, ["snapshots"] + info.revision;
    var moved := Entries(t);
    var main: Path := ["refs", "main"];
    assert main[0] == "refs" && "refs"[0] != "snapshots"[0] && |"refs"| == 4 && |".model-manifest.json"| == 20;
    assert forall p | p in t :: Under(p, moved) <==> Moves(p);
    assert out == Rearranged(t, snap, moved)[main := Bytes(Joined(info.revision))];
    hide Final, Entries, Rearranged, CanSnapshot;
    forall p | p in t && Moves(p) ensures snap + p in out && out[snap + p] == t[p] {
      RearrangedAt(t, snap, moved, snap + p);
      assert (snap + p)[|snap|..] == p && (snap + p)[0] == "snapshots";
    }
    forall p | p in t && !Moves(p) ensures p in out && out[p] == t[p] {
      RearrangedAt(t, snap, moved, p);
      StaysPut(t, info, p);
    }
    forall q | q in out && q != main && !(q in t && !Moves(q)) ensures exists p :: p in t && Moves(p) && q == snap + p {
      RearrangedAt(t, snap, moved, q);
      assert q == snap + q[|snap|..];
    }
  }

  /** What stays is not below the snapshot, and is not `refs/main`. */
  lemma StaysPut(t: Tree, info: Info, p: Path)
    requires info.layout == "hf-cache" && Final(t, info).Some? && p in t && !Moves(p)
    ensures !(["snapshots"] + info.revision <= p) && p != ["refs", "main"]
  {
    if Snapshot(info.revision) <= p { NotUnderSnapshot(t, info.revision, p); }
    assert p != [] ==> p[0] != "refs" by { assert "refs"[0] == 'r' && "snapshots"[0] == 's' && ".model-manifest.json"[0] == '.'; }
  }

  /** When the layout fails: the revision is empty, or something of the archive stands where its directory belongs. */
  lemma LayoutFails(t: Tree, info: Info)
    ensures Final(t, info).None? <==>
              && info.layout == "hf-cache"
              && (info.revision == [] ||
                  exists p :: p in t && (p <= ["snapshots"] + info.revision[..|info.revision| - 1]
                                         || ["snapshots"] + info.revision[..|info.revision| - 1] <= p))
    ensures info.layout != "hf-cache" ==> Final(t, info) == Some(t)
  {
    hide Rearranged;
    if info.revision != [] {
      assert Snapshot(info.revision)[..|info.revision|] == ["snapshots"] + info.revision[..|info.revision| - 1];
    }
  }

  /** Where a repository is installed. */
  lemma TargetOfRepo(req: Request, org: string, name: string)
    requires req.info.layout == "hf-cache" && req.repo == org + ("/" + name) && '/' !in org && '/' !in name
    ensures TargetDir(req) == Some("models--" + (org + ("--" + name)))
  {
    DashedPlain(org, "/" + name);
    DashedName(name);
    hide Dashed;
  }

  /** Where a flat model is installed, and what has no place. */
  lemma TargetOfFlat(req: Request)
    ensures req.info.layout != "hf-cache" ==> TargetDir(req) == Some(req.subdir)
    ensures TargetDir(req).None? <==> req.info.layout == "hf-cache" && req.repo == ""
  {}

  lemma DashedName(name: string)
    requires '/' !in name
    ensures Dashed("/" + name) == "--" + name
  {
    DashedPlain(name, "");
    assert name + "" == name && ("/" + name)[1..] == name && Dashed("") == "";
    assert name + Dashed("") == name;
  }

  lemma {:induction false} DashedPlain(s: string, t: string)
    requires '/' !in s
    ensures Dashed(s + t) == s + Dashed(t)
  {
    if s == "" {
      assert s + t == t;
    } else {
      assert s[0] in s && (s + t)[1..] == s[1..] + t;
      DashedPlain(s[1..], t);
      assert s == [s[0]] + s[1..];
    }
  }

  /** Moving one more entry. */
  lemma MoveOneMore(t: Tree, revision: Path, moved: set<string>, e: string)
    requires CanSnapshot(t, revision) && moved <= Entries(t) && e in Entries(t) && e !in moved
    ensures Rearranged(Rearranged(t, Snapshot(revision), moved), Snapshot(revision), {e})
         == Rearranged(t, Snapshot(revision), moved + {e})
  {
    var snap := Snapshot(revision);
    var mid := Rearranged(t, snap, moved);
    var a, b := Rearranged(mid, snap, {e}), Rearranged(t, snap, moved + {e});
    forall q: Path
      ensures q in a <==> q in b
      ensures q in a ==> a[q] == b[q]
    {
      RearrangedAt(mid, snap, {e}, q);
      RearrangedAt(t, snap, moved, q);
      RearrangedAt(t, snap, moved + {e}, q);
      if snap <= q {
        NotUnderSnapshot(t, revision, q);
        var p := q[|snap|..];
        RearrangedAt(t, snap, moved, p);
        if Under(p, {e}) && snap <= p { assert p[0] == "snapshots"; }
      }
    }
  }

  lemma NotUnderSnapshot(t: Tree, revision: Path, q: Path)
    requires CanSnapshot(t, revision) && Snapshot(revision) <= q
    ensures q !in t
  {
    var snap := Snapshot(revision);
    assert snap[..|revision|] <= q;
  }

  // ---------------------------------------------------------------- the volume

  /** The two volumes agree on everything but one directory. */
  ghost predicate SameBut(a: Dirs, b: Dirs, d: string) { a - {d} == b - {d} }

  /** The journal has grown, and the new states differ from `start` in one directory at most. */
  ghost predicate Extends(before: seq<Dirs>, after: seq<Dirs>, start: Dirs, d: string) {
    && |before| <= |after| && after[..|before|] == before
    && forall i | |before| <= i < |after| :: SameBut(start, after[i], d)
  }

  lemma ExtendsBy(before: seq<Dirs>, after: seq<Dirs>, start: Dirs, d: string, t: Tree)
    requires Extends(before, after, start, d)
    ensures Extends(before, after + [start[d := t]], start, d) && SameBut(start, start[d := t], d)
  {
    var more := after + [start[d := t]];
    assert more[..|before|] == after[..|before|];
    assert start[d := t] - {d} == start - {d};
  }

  function Part(t: Tree, missing: set<Path>): Tree { map p | p in t && p !in missing :: t[p] }

  lemma PartStep(t: Tree, missing: set<Path>, p: Path)
    requires p in t && p in missing
    ensures Part(t, missing)[p := t[p]] == Part(t, missing - {p})
  {}

  lemma PartEnds(t: Tree)
    ensures Part(t, t.Keys) == map[] && Part(t, {}) == t
  {}

  class Volume {
    var dirs: Dirs
    var journal: seq<Dirs>  // the volume after each change: where a crash can leave it

    method RemoveTree(d: string)
      modifies this
      ensures dirs == old(dirs) - {d} && journal == old(journal) + [dirs]
    {
      dirs := dirs - {d};
      journal := journal + [dirs];
    }

    method WriteTree(d: string, t: Tree)
      modifies this
      ensures dirs == old(dirs)[d := t] && journal == old(journal) + [dirs]
    {
      dirs := dirs[d := t];
      journal := journal + [dirs];
    }

    method RenameTree(from: string, to: string)
      requires from in dirs && to !in dirs && from != to
      modifies this
      ensures dirs == (old(dirs) - {from})[to := old(dirs)[from]] && journal == old(journal) + [dirs]
    {
      dirs := (dirs - {from})[to := dirs[from]];
      journal := journal + [dirs];
    }

    /** `_extract`: file by file, in any order, giving up after `files` of them. */
    method Extract(archive: Tree, work: string, files: nat) returns (ok: bool)
      requires work !in dirs
      modifies this
      ensures ok <==> |archive| <= files
      ensures ok ==> dirs == old(dirs)[work := archive]
      ensures Extends(old(journal), journal, old(dirs), work) && SameBut(old(dirs), dirs, work)
    {
      hide Part, Extends, SameBut;
      ghost var start, before := dirs, journal;
      var rest, done := archive.Keys, 0;
      PartEnds(archive);
      assert Extends(before, before, start, work) by { ExtendsSelf(before, start, work); }
      ExtendsBy(before, journal, start, work, map[]);
      WriteTree(work, map[]);
      while rest != {} && done < files
        invariant rest <= archive.Keys && done + |rest| == |archive| && done <= files
        invariant dirs == start[work := Part(archive, rest)] && SameBut(start, dirs, work)
        invariant Extends(before, journal, start, work)
        decreases rest
      {
        var p :| p in rest;
        PartStep(archive, rest, p);
        ExtendsBy(before, journal, start, work, Part(archive, rest - {p}));
        WriteTree(work, dirs[work][p := archive[p]]);
        rest, done := rest - {p}, done + 1;
      }
      ok := rest == {};
    }

    /** The renaming loop of `_finalize_layout`. */
    method MoveEntries(work: string, revision: Path)
      requires work in dirs && CanSnapshot(dirs[work], revision)
      modifies this
      ensures var t := old(dirs)[work];
              dirs == old(dirs)[work := Rearranged(t, Snapshot(revision), Entries(t))]
      ensures Extends(old(journal), journal, old(dirs), work)
    {
      hide Rearranged, Extends, SameBut, CanSnapshot, Entries, Snapshot;
      ghost var start, before := dirs, journal;
      ExtendsSelf(before, start, work);
      var t, snap := dirs[work], Snapshot(revision);
      var rest := Entries(t);
      ghost var moved: set<string> := {};
      NothingMoved(t, snap);
      assert start == start[work := t];
      while rest != {}
        invariant rest + moved == Entries(t) && rest !! moved
        invariant dirs == start[work := Rearranged(t, snap, moved)]
        invariant Extends(before, journal, start, work)
        decreases rest
      {
        var e :| e in rest;
        MoveOneMore(t, revision, moved, e);
        ExtendsBy(before, journal, start, work, Rearranged(t, snap, moved + {e}));
        WriteTree(work, Rearranged(dirs[work], snap, {e}));
        rest, moved := rest - {e}, moved + {e};
      }
      assert moved == Entries(t);
    }

    /** `_finalize_layout`. */
    method FinalizeLayout(work: string, info: Info) returns (ok: bool)
      requires work in dirs
      modifies this
      ensures ok <==> Final(old(dirs)[work], info).Some?
      ensures ok ==> dirs == old(dirs)[work := Final(old(dirs)[work], info).value]
      ensures Extends(old(journal), journal, old(dirs), work) && SameBut(old(dirs), dirs, work)
    {
      hide Rearranged, Extends, SameBut, CanSnapshot, Entries, Snapshot;
      ghost var start, before := dirs, journal;
      ExtendsSelf(before, start, work);
      if info.layout != "hf-cache" {
        assert dirs == dirs[work := dirs[work]];
        return true;
      }
      if !CanSnapshot(dirs[work], info.revision) { return false; }
      MoveEntries(work, info.revision);
      ghost var final := dirs[work][["refs", "main"] := Bytes(Joined(info.revision))];
      ExtendsBy(before, journal, start, work, final);
      WriteTree(work, dirs[work][["refs", "main"] := Bytes(Joined(info.revision))]);
      assert dirs == start[work := final];
      ok := true;
    }

    /** Writing a file is not atomic: the marker can be cut short. */
    method WriteMarker(work: string, info: Info)
      requires work in dirs
      modifies this
      ensures dirs == old(dirs)[work := old(dirs)[work][MARKER := Marker(info)]]
      ensures Extends(old(journal), journal, old(dirs), work) && SameBut(old(dirs), dirs, work)
    {
      hide Extends, SameBut;
      ghost var start, before := dirs, journal;
      ExtendsSelf(before, start, work);
      ghost var t := dirs[work];
      ExtendsBy(before, journal, start, work, t[MARKER := Bytes("")]);
      WriteTree(work, dirs[work][MARKER := Bytes("")]);
      ExtendsBy(before, journal, start, work, t[MARKER := Marker(info)]);
      WriteTree(work, dirs[work][MARKER := Marker(info)]);
      assert t[MARKER := Bytes("")][MARKER := Marker(info)] == t[MARKER := Marker(info)];
      assert dirs == start[work := t[MARKER := Marker(info)]];
    }

    /** The part of `install` that works in the temporary directory: extract, finalize, mark. */
    method Prepare(unpack: string -> Tree, info: Info, work: string, files: nat) returns (ok: bool)
      modifies this
      ensures ok <==> |unpack(info.sha)| <= files && Complete(unpack, info).Some?
      ensures ok ==> dirs == old(dirs)[work := Complete(unpack, info).value]
      ensures Extends(old(journal), journal, old(dirs), work) && SameBut(old(dirs), dirs, work)
    {
      hide Final, Extends, SameBut;
      ghost var start, before := dirs, journal;
      ExtendsSelf(before, start, work);
      if work in dirs {
        ExtendsByRemoval(before, journal, start, work);
        RemoveTree(work);
      }
      ghost var d1, j1 := dirs, journal;
      ok := Extract(unpack(info.sha), work, files);
      ExtendsThen(before, j1, journal, start, d1, dirs, work);
      if !ok { return; }
      ghost var d2, j2 := dirs, journal;
      ok := FinalizeLayout(work, info);
      ExtendsThen(before, j2, journal, start, d2, dirs, work);
      if !ok { return; }
      ghost var d3, j3 := dirs, journal;
      WriteMarker(work, info);
      ExtendsThen(before, j3, journal, start, d3, dirs, work);
      Overwrites(start, work, dirs[work], dirs);
    }

    /** `install`. */
    method Install(unpack: string -> Tree, req: Request, reply: Reply, ghost targets: set<string>) returns (result: Result)
      // no target is the working directory of the one installed
      requires Safe(unpack, dirs, targets) && (TargetDir(req).Some? ==> WorkDir(TargetDir(req).value) !in targets)
      modifies this
      // what a crash at any point leaves is safe, and so is the end
      ensures Safe(unpack, dirs, targets)
      ensures |old(journal)| <= |journal| && journal[..|old(journal)|] == old(journal)
      ensures forall i | |old(journal)| <= i < |journal| :: Safe(unpack, journal[i], targets)
      // at every moment the target is what it was, absent, or complete
      ensures TargetDir(req).Some? ==> forall i | |old(journal)| <= i < |journal| ::
                OldOrComplete(unpack, old(dirs), journal[i], TargetDir(req).value, req.info)
      // skipping is decided by the digest alone and changes nothing
      ensures result.Skipped? <==> TargetDir(req).Some? && MarkerSha(old(dirs), TargetDir(req).value) == Some(req.info.sha)
      ensures result.Skipped? ==> dirs == old(dirs) && journal == old(journal)
      // a download that fails or does not match changes nothing
      ensures !result.Skipped? && reply.download != Some(req.info.sha) ==> result.Failed? && dirs == old(dirs)
      // failing never changes the target or any other directory but the working one
      ensures result.Failed? && TargetDir(req).Some? ==> SameBut(old(dirs), dirs, WorkDir(TargetDir(req).value))
      // success is exactly the complete tree in place of the target, and no working directory
      ensures result.Installed? <==>
                && !result.Skipped? && TargetDir(req).Some? && reply.download == Some(req.info.sha)
                && |unpack(req.info.sha)| <= reply.files && Complete(unpack, req.info).Some?
      ensures result.Installed? ==>
                var target := TargetDir(req).value;
                dirs == (old(dirs) - {WorkDir(target)})[target := Complete(unpack, req.info).value]
    {
      hide Final, Honest, Complete;
      ghost var start, before := dirs, journal;
      var dir := TargetDir(req);
      if dir.None? { return Failed; }
      var target := dir.value;
      if MarkerSha(dirs, target) == Some(req.info.sha) { return Skipped; }
      if reply.download.None? { return Failed; }
      var actual := reply.download.value;
      if actual != req.info.sha { return Failed; }
      var work := WorkDir(target);
      WorkNames(target);
      var ok := Prepare(unpack, req.info, work, reply.files);
      SafeOutsideWork(unpack, before, journal, start, dirs, work, targets);
      TargetOutsideWork(unpack, before, journal, start, target, work, req.info);
      if !ok { return Failed; }
      ghost var tree := dirs[work];
      if target in dirs { RemoveTree(target); }
      RenameTree(work, target);
      CompleteIsHonest(unpack, req.info);
      assert dirs == (start - {work})[target := tree];
      result := Installed;
    }
  }

  lemma WorkNames(target: string)
    ensures WorkDir(target) != target
  {
    assert |WorkDir(target)| == |target| + 4;
  }

  lemma SafeOutsideWork(unpack: string -> Tree, before: seq<Dirs>, after: seq<Dirs>, start: Dirs, dirs: Dirs,
                        work: string, targets: set<string>)
    requires Safe(unpack, start, targets) && work !in targets
    requires Extends(before, after, start, work) && SameBut(start, dirs, work)
    ensures Safe(unpack, dirs, targets)
    ensures |before| <= |after| && after[..|before|] == before
    ensures forall i | |before| <= i < |after| :: Safe(unpack, after[i], targets)
  {
    hide Honest;
    SafeBut(unpack, start, dirs, work, targets);
    forall i | |before| <= i < |after| ensures Safe(unpack, after[i], targets) {
      SafeBut(unpack, start, after[i], work, targets);
    }
  }

  ghost predicate OldOrComplete(unpack: string -> Tree, start: Dirs, now: Dirs, target: string, info: Info) {
    target in now ==>
      || (target in start && now[target] == start[target])
      || Complete(unpack, info) == Some(now[target])
  }

  lemma TargetOutsideWork(unpack: string -> Tree, before: seq<Dirs>, after: seq<Dirs>, start: Dirs,
                          target: string, work: string, info: Info)
    requires Extends(before, after, start, work) && target != work
    ensures forall i | |before| <= i < |after| :: OldOrComplete(unpack, start, after[i], target, info)
  {
    hide Complete;
    forall i | |before| <= i < |after| ensures OldOrComplete(unpack, start, after[i], target, info) {
      assert SameBut(start, after[i], work);
      assert target in after[i] ==> target in after[i] - {work};
    }
  }

  lemma SafeBut(unpack: string -> Tree, a: Dirs, b: Dirs, work: string, targets: set<string>)
    requires Safe(unpack, a, targets) && work !in targets && SameBut(a, b, work)
    ensures Safe(unpack, b, targets)
  {
    hide Honest;
    forall d | d in b && d in targets ensures Honest(unpack, b[d]) {
      assert d in (b - {work}) && (b - {work})[d] == (a - {work})[d];
    }
  }

  lemma CompleteIsHonest(unpack: string -> Tree, info: Info)
    ensures Complete(unpack, info).Some? ==> Honest(unpack, Complete(unpack, info).value)
  {}

  lemma ExtendsByRemoval(before: seq<Dirs>, after: seq<Dirs>, start: Dirs, d: string)
    requires Extends(before, after, start, d)
    ensures Extends(before, after + [start - {d}], start, d) && SameBut(start, start - {d}, d)
  {
    var more := after + [start - {d}];
    assert more[..|before|] == after[..|before|];
    assert (start - {d}) - {d} == start - {d};
  }

  lemma ExtendsThen(before: seq<Dirs>, mid: seq<Dirs>, after: seq<Dirs>, start: Dirs, d1: Dirs, d2: Dirs, d: string)
    requires Extends(before, mid, start, d) && SameBut(start, d1, d)
    requires Extends(mid, after, d1, d) && SameBut(d1, d2, d)
    ensures Extends(before, after, start, d) && SameBut(start, d2, d)
  {
    assert after[..|before|] == after[..|mid|][..|before|];
    forall i | |before| <= i < |after| ensures SameBut(start, after[i], d) {
      if i < |mid| { assert after[i] == after[..|mid|][i]; }
    }
  }

  lemma Overwrites(start: Dirs, work: string, t: Tree, dirs: Dirs)
    requires SameBut(start, dirs, work) && work in dirs && dirs[work] == t
    ensures dirs == start[work := t]
  {
    forall d | d != work ensures (d in dirs <==> d in start) && (d in dirs ==> dirs[d] == start[d]) {
      assert d in (dirs - {work}) <==> d in (start - {work});
    }
  }

  lemma ExtendsSelf(before: seq<Dirs>, start: Dirs, d: string)
    ensures Extends(before, before, start, d) && SameBut(start, start, d)
  {}

  lemma NothingMoved(t: Tree, snap: Path)
    ensures Rearranged(t, snap, {}) == t
  {}

  // ---------------------------------------------------------------- crash, rerun, run again

  /** Crash the first attempt wherever you like, rerun the request with a good download, and run it once
      more: the rerun does not fail, the target then holds exactly the tree the request asked for (unless
      its digest was installed already), and the last run is a no-op. */
  method CrashRerunRepeat(v: Volume, unpack: string -> Tree, req: Request, first: Reply, at: nat, good: Reply)
    returns (rerun: Result, again: Result)
    requires TargetDir(req).Some? && Safe(unpack, v.dirs, {TargetDir(req).value})
    requires Complete(unpack, req.info).Some?
    requires good.download == Some(req.info.sha) && |unpack(req.info.sha)| <= good.files
    modifies v
    ensures !rerun.Failed? && again.Skipped?
    ensures var target := TargetDir(req).value;
            && MarkerSha(v.dirs, target) == Some(req.info.sha)
            && Complete(unpack, v.dirs[target][MARKER].info) == Some(v.dirs[target])
            && (MarkerSha(old(v.dirs), target) != Some(req.info.sha) ==>
                  Complete(unpack, req.info) == Some(v.dirs[target]))
  {
    hide Final;
    var target := TargetDir(req).value;
    ghost var targets := {target};
    WorkNames(target);
    v.journal := [v.dirs];
    assert OldOrComplete(unpack, old(v.dirs), v.dirs, target, req.info);
    var result := v.Install(unpack, req, first, targets);
    var crashed := if at < |v.journal| then v.journal[at] else v.dirs;
    assert OldOrComplete(unpack, old(v.dirs), v.dirs, target, req.info) by {
      if result.Failed? && target in v.dirs { assert target in v.dirs - {WorkDir(target)}; }
    }
    if at == 0 { assert v.journal[..1][0] == old(v.dirs); }
    assert Safe(unpack, crashed, targets) && OldOrComplete(unpack, old(v.dirs), crashed, target, req.info);
    v.dirs := crashed;
    rerun := v.Install(unpack, req, good, targets);
    again := v.Install(unpack, req, first, targets);
  }

  /** A revision as a path: its components contain no slash. */
  ghost predicate PlainPath(p: Path) { forall c | c in p :: '/' !in c }

  lemma {:induction false} JoinedInjective(p: Path, q: Path)
    requires PlainPath(p) && PlainPath(q) && p != [] && q != [] && Joined(p) == Joined(q)
    ensures p == q
  {
    assert p[0] in p && q[0] in q;
    JoinedHead(p);
    JoinedHead(q);
    assert p == [p[0]] + p[1..] && q == [q[0]] + q[1..];
    if |p| > 1 && |q| > 1 {
      var a, b := Joined(p), Joined(q);
      SlashIsIn(p[0], Joined(p[1..]), q[0], Joined(q[1..]));
      SlashIsIn(q[0], Joined(q[1..]), p[0], Joined(p[1..]));
      assert |p[0]| == |q[0]|;
      assert a[..|p[0]|] == p[0] && b[..|q[0]|] == q[0];
      assert a[|p[0]| + 1..] == Joined(p[1..]) && b[|q[0]| + 1..] == Joined(q[1..]);
      assert forall c | c in p[1..] :: c in p;
      assert forall c | c in q[1..] :: c in q;
      JoinedInjective(p[1..], q[1..]);
    }
  }

  lemma SlashIsIn(a: string, b: string, c: string, d: string)
    requires a + "/" + b == c + "/" + d
    ensures |a| < |c| ==> '/' in c
  {
    assert (a + "/" + b)[|a|] == '/';
  }

  lemma JoinedHead(p: Path)
    requires p != []
    ensures if |p| == 1 then Joined(p) == p[0] else '/' in Joined(p) && Joined(p) == p[0] + "/" + Joined(p[1..])
  {
    if |p| > 1 { assert Joined(p)[|p[0]|] == '/'; }
  }

  /** A skip trusts the digest alone. The files it leaves in place are those the request asked for if and only if
      neither the installed layout nor the requested one is hf-cache, or both are and the revisions agree; archive name
      and size make no difference. */
  lemma SkipServesRequest(unpack: string -> Tree, dirs: Dirs, req: Request)
    requires TargetDir(req).Some? && Safe(unpack, dirs, {TargetDir(req).value})
    requires MarkerSha(dirs, TargetDir(req).value) == Some(req.info.sha)
    requires PlainPath(req.info.revision) && PlainPath(dirs[TargetDir(req).value][MARKER].info.revision)
    ensures var tree := dirs[TargetDir(req).value];
            var installed, asked := tree[MARKER].info, Complete(unpack, req.info);
            (asked.Some? && tree - {MARKER} == asked.value - {MARKER})
            <==> ((installed.layout != "hf-cache" && req.info.layout != "hf-cache")
                  || (installed.layout == "hf-cache" == req.info.layout && installed.revision == req.info.revision))
  {
    var tree := dirs[TargetDir(req).value];
    assert Honest(unpack, tree);
    SameFiles(unpack, tree[MARKER].info, req.info);
  }

  /** Which two records of one archive ask for the same files. */
  lemma SameFiles(unpack: string -> Tree, a: Info, b: Info)
    requires a.sha == b.sha && PlainPath(a.revision) && PlainPath(b.revision) && Complete(unpack, a).Some?
    ensures (Complete(unpack, b).Some? && Complete(unpack, a).value - {MARKER} == Complete(unpack, b).value - {MARKER})
       <==> ((a.layout != "hf-cache" && b.layout != "hf-cache")
             || (a.layout == "hf-cache" == b.layout && a.revision == b.revision))
  {
    var t := unpack(a.sha);
    if Complete(unpack, b).Some? {
      WithoutMarker(Final(t, a).value, Marker(a));
      WithoutMarker(Final(t, b).value, Marker(b));
      if a.layout == "hf-cache" == b.layout {
        RefsNameRevision(t, a);
        RefsNameRevision(t, b);
        if Joined(a.revision) == Joined(b.revision) { JoinedInjective(a.revision, b.revision); }
      } else if a.layout == "hf-cache" {
        CacheIsNotFlat(t, a);
      } else if b.layout == "hf-cache" {
        CacheIsNotFlat(t, b);
      }
    }
  }

  lemma WithoutMarker(t: Tree, f: File)
    ensures t[MARKER := f] - {MARKER} == t - {MARKER}
  {}

  const REFS_MAIN: Path := ["refs", "main"]

  lemma RefsNameRevision(t: Tree, info: Info)
    requires info.layout == "hf-cache" && Final(t, info).Some?
    ensures info.revision != []
    ensures var files := Final(t, info).value - {MARKER};
            REFS_MAIN in files && files[REFS_MAIN] == Bytes(Joined(info.revision))
  {
    assert |REFS_MAIN| != |MARKER|;
    hide Rearranged;
  }

  /** The files of the hf-cache layout are never those of the flat one. */
  lemma CacheIsNotFlat(t: Tree, info: Info)
    requires info.layout == "hf-cache" && Final(t, info).Some?
    ensures Final(t, info).value - {MARKER} != t - {MARKER}
  {
    var files, snap := Final(t, info).value - {MARKER}, Snapshot(info.revision);
    RefsNameRevision(t, info);
    if REFS_MAIN in t - {MARKER} {
      var moved := snap + REFS_MAIN;
      assert REFS_MAIN[0] == "refs" && "refs" != "snapshots" && |"refs"| != |MARKER_NAME|;
      assert "refs" in Entries(t);
      assert moved[|snap|..] == REFS_MAIN && snap <= moved;
      RearrangedAt(t, snap, Entries(t), moved);
      assert |moved| > |MARKER|;
      NotUnderSnapshot(t, info.revision, moved);
      assert moved in files && moved !in t - {MARKER};
    }
  }

  /** A request that is skipped although the directory serves another revision: the same archive, asked for as `v2`
      where it is installed as `main`. */
  lemma SkipServesOtherRevision(unpack: string -> Tree, sha: string, repo: string)
    requires repo != "" && unpack(sha) == map[["config.json"] := Bytes("")]
    ensures var main, v2 := Info(sha, "", "hf-cache", ["main"], 0), Info(sha, "", "hf-cache", ["v2"], 0);
            var req := Request("", repo, v2);
            && TargetDir(req).Some? && Complete(unpack, main).Some? && Complete(unpack, v2).Some?
            && var dirs: Dirs := map[TargetDir(req).value := Complete(unpack, main).value];
            && Safe(unpack, dirs, {TargetDir(req).value}) && MarkerSha(dirs, TargetDir(req).value) == Some(sha)
            && dirs[TargetDir(req).value] - {MARKER} != Complete(unpack, v2).value - {MARKER}
  {
    var main, v2 := Info(sha, "", "hf-cache", ["main"], 0), Info(sha, "", "hf-cache", ["v2"], 0);
    assert |"main"| != |"v2"| && PlainPath(["main"]) && PlainPath(["v2"]);
    OneFileCompletes(unpack, main, "main");
    OneFileCompletes(unpack, v2, "v2");
    CompleteIsHonest(unpack, main);
    hide Final, Complete, Honest;
    SameFiles(unpack, main, v2);
  }

  lemma OneFileCompletes(unpack: string -> Tree, info: Info, revision: string)
    requires unpack(info.sha) == map[["config.json"] := Bytes("")] && info.layout == "hf-cache" && info.revision == [revision]
    ensures Complete(unpack, info).Some?
    ensures MARKER in Complete(unpack, info).value && Complete(unpack, info).value[MARKER] == Marker(info)
  {
    var p: Path := ["config.json"];
    assert p[0] != "snapshots" by { assert |p[0]| == 11 && |"snapshots"| == 9; }
    assert Snapshot([revision])[..1][0] == "snapshots";
    assert CanSnapshot(unpack(info.sha), [revision]);
    hide Rearranged, CanSnapshot;
  }

  // ---------------------------------------------------------------- removing the old target file by file

  /** What is left of a tree after its first n files in some order are gone. */
  function Remaining(t: Tree, order: seq<Path>, n: nat): Tree
    requires n <= |order|
  {
    t - (set i | 0 <= i < n :: order[i])
  }

  ghost predicate DeletionOrder(t: Tree, order: seq<Path>) {
    && (forall p :: p in order <==> p in t)
    && forall i, j | 0 <= i < j < |order| :: order[i] != order[j]
  }

  /** If the removal of an installed tree is not one step but deletes file by file, then a crash inside it
      keeps "marker implies complete" if and only if the marker is deleted before every other file. */
  lemma DeletionIsSafeWhenMarkerGoesFirst(unpack: string -> Tree, info: Info, order: seq<Path>)
    requires Complete(unpack, info).Some? && DeletionOrder(Complete(unpack, info).value, order)
    ensures (forall n | 0 <= n <= |order| :: Honest(unpack, Remaining(Complete(unpack, info).value, order, n)))
       <==> order != [] && order[0] == MARKER
  {
    hide Final;
    var t := Complete(unpack, info).value;
    assert MARKER in t && MARKER in order;
    if order[0] == MARKER {
      forall n | 0 <= n <= |order| ensures Honest(unpack, Remaining(t, order, n)) {
        if n > 0 {
          assert order[0] in set i | 0 <= i < n :: order[i];
          assert MARKER !in Remaining(t, order, n);
        } else {
          assert Remaining(t, order, 0) == t;
        }
      }
    } else {
      var left := Remaining(t, order, 1);
      assert (set i | 0 <= i < 1 :: order[i]) == {order[0]};
      assert left == t - {order[0]};
      assert MARKER in left && left[MARKER] == Marker(info);
      assert order[0] in t && order[0] !in left;
      assert !Honest(unpack, left);
    }
  }
}
