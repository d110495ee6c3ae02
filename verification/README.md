# Argus RAG Studio: models and proofs

This project models the parts of Argus RAG Studio whose promises are hard to see from one function: its small
concurrent protocols, its crash-safe model installation, its text editors, its object-store bookkeeping and its
stateful managers. Every module is one component:

- `ModelLoading`, `RunExclusive`, `Metrics`, `Agents`: protocols as step systems with any number of threads, calls
  or agents. `Metrics` and `Agents` also hold the class whose methods perform the steps.
- `ModelInstall`: the agent's model installation on a volume with a journal. Whatever holds of every journal entry
  holds after a crash at any point. `ConcurrentInstall` lets installations of one target interleave.
- `ModelPrep`: the model preparation of a deployment and the environment the container gets from it.
- `Properties`, `Placeholders`, `Limits`, `ResolvConf`, `SystemdUnit`, `UnitDirectives`: readers and editors of
  configuration texts, over Python's text primitives in `Text`.
- `Storage`, `Crops`, `ListWindow`, `AiHub`: keys, pages, crop folders, list windows and the AI-Hub format of the
  annotation module, with Python's stable sort in `Sorting`.
- `Terminal`, `CronLoop`, `Evidence`: the PTY session manager, the cron poll loop, the best page and its LRU cache.

Methods are proved against specification functions, and the lemmas are about those functions. Clocks, network
replies, hashing, archive formats, the calendar, `str.lower`, `int()` and the set of decimal digits are parameters.

Some properties one would expect do not hold of the code. For each there is a lemma that says exactly when it does:

- Updating `limits.conf` twice is not updating it once if both entries existed and the file ends in two blank lines
  (`Limits.UpdateTwice`, `Limits.UpdateTwiceDiffers`).
- A skipped installation serves the files asked for only if the layouts match and, for hf-cache, the revisions are the
  same (`ModelInstall.SkipServesRequest`, `ModelInstall.SkipServesOtherRevision`), and removing the old tree file by file
  is crash-safe only if the marker goes first (`ModelInstall.DeletionIsSafeWhenMarkerGoesFirst`).
- The list of served repositories can hold one twice, because the registry keeps names apart and not repositories
  (`ModelPrep.ServedOnce`, `ModelPrep.AlwaysServedOnce`, `ModelPrep.ServedTwice`).
- The metadata of a unit need not read back. `SystemdUnit.AlwaysReadsBack` and `SystemdUnit.MetadataReadsBack` say
  exactly when they do; a kind can forge a version (`SystemdUnit.KindForgesVersion`), no guard on the checked fields is
  enough (`SystemdUnit.CheckedFieldsAreTooFew`), and the two characters rejected would not be enough for all fields either
  (`SystemdUnit.GuardIsEnough`, `SystemdUnit.GuardOfTheCode`).
- `delete_folder` selects exactly the subtree only for names without LIKE wildcards (`Storage.FolderMatchIsExact`);
  normalising a folder twice can change it (`Storage.NormTwice`); therefore some blank paths, such as `/ /`, pass the test
  for the root and delete it (`Storage.RootDeleted`), and its objects stay behind (`Storage.RootObjectsRemain`).
  `Storage.RowsAndObjectsAgree` says for which folders rows and objects agree, and `Storage.ObjectStays` shows an image
  that loses its row alone.
- Overlapping installations of one target can leave a marker on a foreign tree (`ConcurrentInstall.InstallsMustNotMix`,
  `ConcurrentInstall.OverlapLies`).
- A nameserver entry with a line boundary can change search domains and options, and can outlast the next update
  (`ResolvConf.SearchSurvives`, `ResolvConf.LastUpdateWins`, `ResolvConf.UpdateTwice`, `ResolvConf.EntryWithSearch`).
- Updating properties twice is not updating them once if a key cannot be read back or a value takes several lines
  (`Properties.UpdateTwice`, `Properties.Grows`).
- The two halves of the image list search differently (`ListWindow.SearchesAgree`).
- The cron loop remembers only the minute of the day, so a schedule with one minute per day pushes once for good
  (`CronLoop.OnceForGood`, `CronLoop.SecondDayIsSkipped`); `CronLoop.AllServed` says exactly when every due minute is
  served.
- A text that placeholder resolution inserts is safe for a second pass only if it is inert
  (`Placeholders.InertIsExact`).
- A heartbeat between the two halves of a disconnect check does not stop the mark (`Agents.InterruptedCheck`,
  `Agents.MarkedThoughBeating`).
- Unregistering misses disconnected agents, which then come back as registered (`Agents.StatusFollowsAdministrator`,
  `Agents.UnregisteredComesBack`, `Agents.UnregisterMissesDisconnected`).
- Pages of the image list can lose or repeat rows created at the same time (`ListWindow.WindowIsStable`).
- A failing fork, or a terminal session created under the id of a live one, leaks a master for good
  (`Terminal.MastersAccountedFor`, `Terminal.LeakIsForever`).

Where code and comments disagree, the model follows the code. The comment in `load_properties` speaks of the first
`=` or `:`; the code takes the first `=` anywhere in the line and looks for `:` only if there is none.

## Model

| member | source | states |
|---|---|---|
| ModelLoading.StepKeepsInv | extensions/embedding_server/engine.py:74-88 | every step of every caller keeps the invariant: locks are distinct, their owners hold them, and what a caller is about to return is in the cache |
| ModelLoading.OneBuilderPerName | extensions/embedding_server/engine.py:79-86 | in every interleaving at most one caller is inside the locked region of a name |
| ModelLoading.EntriesNeverChange | extensions/embedding_server/engine.py:39-41 | entries of the lock registry and of the model cache, once made, never change in any continuation of a run |
| ModelLoading.StoredAtMostOnce | extensions/embedding_server/engine.py:86 | the cache is assigned at most once per name |
| ModelLoading.CallersAgree | extensions/embedding_server/engine.py:74-88 | all successful callers for a name return the same object, the one in the cache |
| ModelLoading.ReturnedWasBuilt | extensions/embedding_server/engine.py:74-88 | in every run, what a caller returns was built by a caller for the same name |
| ModelLoading.RaisedMeansFailed | extensions/embedding_server/engine.py:85 | in every run, only a caller whose own build failed gets an error |
| ModelLoading.BuildReachesCaller | extensions/embedding_server/engine.py:85-88 | after a successful build its caller keeps the model in every continuation and, once finished, has returned it |
| ModelLoading.CachedNeverWaits | extensions/embedding_server/engine.py:76-78 | a call for a cached name is answered in one step, whoever holds the locks |
| ModelLoading.FailedBuildLeavesNoTrace | extensions/embedding_server/engine.py:85-86 | after a failed build, whatever the other callers do meanwhile: until its caller leaves, the name is not cached and nobody else is inside its lock; leaving only frees the lock and keeps the error |
| ModelLoading.CallerReachesBuild | extensions/embedding_server/engine.py:76-85 | when nobody obstructs a name without an entry, a caller for it can go on to build |
| ModelLoading.RunsAreBounded | extensions/embedding_server/engine.py:74-88 | a run has no more steps than its calls allow, so nobody spins |
| ModelLoading.SomeCallerCanStep | extensions/embedding_server/engine.py:74-88 | no deadlock: while a caller is unfinished, some step is possible |
| RunExclusive.StepKeepsInv | extensions/hwp_render_server/server.js:70-74 | every call, queue job and settling task keeps the invariant on promises and queue |
| RunExclusive.JobsNeverFail | extensions/hwp_render_server/server.js:70-74 | every queued promise job can run |
| RunExclusive.StepRefines | extensions/hwp_render_server/server.js:70-74 | each step of the promise machinery is a step of a FIFO mutex or invisible to it |
| RunExclusive.ExclusiveInOrder | extensions/hwp_render_server/server.js:70-74 | tasks start in call order, at most one runs, `chain` never rejects, and each resumed caller got its own task's outcome |
| RunExclusive.OutcomesAreSupplied | extensions/hwp_render_server/server.js:70-74 | the outcomes of the tasks are those that the actions of the run carry, in order |
| RunExclusive.QuietMeansDone | extensions/hwp_render_server/server.js:101-107 | when queue and task are idle, every call has started its task and every caller has been resumed |
| Metrics.Recorder.ReqStart | extensions/embedding_server/metrics.py:51-53 | counts one more request in flight |
| Metrics.Recorder.ReqEnd | extensions/embedding_server/metrics.py:56-65 | counts one request ended, with clamp, latency, status and error |
| Metrics.Recorder.IncrBy | extensions/embedding_server/metrics.py:68-70 | adds to one domain counter |
| Metrics.SumAfterIncrement | extensions/embedding_server/metrics.py:62-63 | raising one status counter raises the sum over all statuses by one |
| Metrics.StepKeepsInv | extensions/embedding_server/metrics.py:220-234 | every interleaved step keeps counters and cache consistent with the history |
| Metrics.CountersAreExact | extensions/embedding_server/metrics.py:51-70 | in flight equals active, statuses sum to the total, errors are the ended requests with error or status at least 500, each domain counter is the sum of its increments |
| Metrics.ClampNeverFires | extensions/embedding_server/main.py:70-86 | with starts and ends paired by the middleware the clamp at zero is never needed |
| Metrics.AnswersAreFresh | extensions/embedding_server/metrics.py:220-234 | an answer's build was begun less than the cache lifetime before the call, and its request counters are values from within the call |
| Metrics.NextCall | extensions/embedding_server/metrics.py:220-234 | a published build serves the next call if that begins less than 1.5 seconds after it; a later call builds again |
| Agents.Store.ProcessHeartbeat | backend/app/agent/heartbeat_service.py:21-104 | inserts an unknown host as UNREGISTERED, updates a known one, turns DISCONNECTED into REGISTERED, and records the beat |
| Agents.Store.Scan | backend/app/agent/disconnect_checker.py:61-75 | returns exactly the hosts whose last beat is older than the threshold |
| Agents.Store.Mark | backend/app/agent/disconnect_checker.py:75-88 | disconnects exactly the REGISTERED hosts among those scanned |
| Agents.Store.CheckDisconnected | backend/app/agent/disconnect_checker.py:61-88 | scan and mark in one |
| Agents.StepKeepsInv | backend/app/agent/heartbeat_service.py:21-104 | heartbeats, both halves of a check and administrator requests keep the invariant |
| Agents.StatusFollowsAdministrator | backend/app/servermgr/service.py:101-124 | in every run from empty tables, status and administrator agree about an agent (REGISTERED or DISCONNECTED exactly if its latest request was to register) if and only if the latest request naming it was not one to unregister that found it DISCONNECTED; both tables have the same hosts |
| Agents.OutOfStepExactly | backend/app/servermgr/service.py:101-124 | an agent counts as registered against the administrator's latest request if and only if that request missed it |
| Agents.UnregisteredComesBack | backend/app/agent/heartbeat_service.py:64-73 | the failing run: registered, disconnected by a check, unregistered, and REGISTERED again with the next heartbeat |
| Agents.OnlyAdministratorsManage | backend/app/agent/disconnect_checker.py:61-88 | no sequence of heartbeats and checks grants or revokes a registration |
| Agents.HeartbeatRestores | backend/app/agent/heartbeat_service.py:64-73 | a heartbeat brings a DISCONNECTED agent back to REGISTERED and touches no other agent |
| Agents.UnregisterMissesDisconnected | backend/app/servermgr/service.py:114-124 | over any continuation without further requests for it, an agent that was to be unregistered ends UNREGISTERED if and only if the request found it REGISTERED |
| Agents.UninterruptedCheck | backend/app/agent/disconnect_checker.py:61-88 | an uninterrupted check leaves no REGISTERED agent older than the threshold and changes nobody else |
| Agents.InterruptedCheck | backend/app/agent/disconnect_checker.py:61-88 | whatever runs between scan and mark, the mark disconnects the REGISTERED agents found stale, wrongly exactly when one has beaten in between |
| Agents.MarkedThoughBeating | backend/app/agent/disconnect_checker.py:61-88 | the failing run: an agent beats between scan and mark and is DISCONNECTED at the very time of its beat |
| Agents.DisconnectedMeansSilent | backend/app/agent/disconnect_checker.py:61-88 | in runs whose checks are undisturbed, DISCONNECTED means silent for longer than the timeout |
| ModelInstall.Volume.MoveEntries | agent/app/modelmgr/service.py:79-82 | the renames, one per entry, end in the tree with all entries under the snapshot |
| ModelInstall.MoveOneMore | agent/app/modelmgr/service.py:81-82 | one rename adds exactly one entry to those moved |
| ModelInstall.Volume.FinalizeLayout | agent/app/modelmgr/service.py:73-85 | produces the finalized tree or fails, touching only the working directory |
| ModelInstall.SnapshotLayout | agent/app/modelmgr/service.py:73-85 | the hf-cache layout: every file is below `snapshots/<revision>` but those named `snapshots` or like the marker, `refs/main` holds the revision, and there is nothing else |
| ModelInstall.LayoutFails | agent/app/modelmgr/service.py:73-85 | when it fails: an empty revision, or something in the way of its directory; a flat tree stays as it is |
| ModelInstall.TargetOfRepo | agent/app/modelmgr/service.py:64-70 | `org/name` is installed in `models--org--name` |
| ModelInstall.TargetOfFlat | agent/app/modelmgr/service.py:64-70 | a flat model is installed in its subdirectory; only an hf-cache request without repository has no place |
| ModelInstall.Volume.Prepare | agent/app/modelmgr/service.py:127-135 | succeeds exactly if extraction and layout do, and then leaves the complete tree with its marker in the working directory |
| ModelInstall.Volume.Install | agent/app/modelmgr/service.py:88-148 | at every crash point a marker implies a complete tree and the target is old, absent or complete; a mismatch or failure never changes the target; skip and success exactly characterised |
| ModelInstall.CrashRerunRepeat | agent/app/modelmgr/service.py:88-148 | for every target name: after a crash anywhere, a rerun reaches the installed state and a further run is a no-op |
| ModelInstall.SkipServesRequest | agent/app/modelmgr/service.py:94-101 | a skip leaves the files asked for if and only if neither the installed nor the requested layout is hf-cache, or both are and the revisions agree; archive name and size make no difference |
| ModelInstall.SkipServesOtherRevision | agent/app/modelmgr/service.py:94-101 | the failing request: the same archive asked for under another revision is skipped, and the files served differ from those asked for |
| ModelInstall.DeletionIsSafeWhenMarkerGoesFirst | agent/app/modelmgr/service.py:136-138 | file-by-file removal keeps "marker implies complete" if and only if the marker is removed first |
| ConcurrentInstall.StepKeepsOwner | agent/app/modelmgr/service.py:124-139 | every step of every installation, extraction file by file, keeps the record of what its owner has put into the shared working directory |
| ConcurrentInstall.SwapIsHonest | agent/app/modelmgr/service.py:130-139 | for every layout: a swap with its own marker leaves an honest target if and only if the rest of the working directory is what was asked for |
| ConcurrentInstall.InstallsMustNotMix | agent/app/modelmgr/service.py:124-139 | in every interleaving "marker implies complete" holds if each installation is alone with the working directory from clearing it to its swap; for flat layouts and disjoint archives it holds if and only if every swap finds all files of its own installation and no others |
| ConcurrentInstall.OverlapLies | agent/app/modelmgr/service.py:124-139 | the failing interleaving of two installations |
| ConcurrentInstall.SomeStepIsPossible | agent/app/modelmgr/service.py:124-139 | no deadlock: an unfinished installation can go on, or the one that keeps the event loop can |
| ModelPrep.Prepare | backend/app/deploy/model_prep.py:198-308 | decides between pre-warm, the two refusals, a failing agent and success; what is installed in each case; the environment changes on success only |
| ModelPrep.InstallStored | backend/app/deploy/model_prep.py:268-281 | installs what the store has, in order, up to the first failure, and notes exactly what is missing |
| ModelPrep.Prewarm | backend/app/deploy/model_prep.py:229-248 | without a selection, installs every stored model the agent accepts |
| ModelPrep.LookupKeys | backend/app/deploy/model_prep.py:251-254 | the lookup knows exactly the names and repositories of the registry |
| ModelPrep.LookupFindsLast | backend/app/deploy/model_prep.py:251-254 | a key leads to the last registered model that has it as name or repository |
| ModelPrep.ResolveMeaning | backend/app/deploy/model_prep.py:255-261 | a selection is refused exactly if a name leads nowhere; otherwise the models are those named, each once, in the order of first mention |
| ModelPrep.NamesAreParts | backend/app/deploy/model_prep.py:227 | the names asked for are the stripped parts of the variable that are not blank |
| ModelPrep.DefaultIsNamed | backend/app/deploy/model_prep.py:263-266 | the default is the model its key leads to, the first picked without a key, and refused if not picked |
| ModelPrep.ServedOnce | backend/app/deploy/model_prep.py:251-300 | the repositories served are pairwise different if and only if no two selected names lead, each to the last model registered under it, to different models of one repository |
| ModelPrep.AlwaysServedOnce | backend/app/deploy/model_prep.py:251-300 | every selection is served without duplicates if and only if no two models that some name leads to are registered under one repository |
| ModelPrep.ServedTwice | backend/app/modelreg/models.py:16 | the failing registry: two names of one repository, which the unique constraint allows, are served as `r,r` |
| ModelPrep.BuildEnv | backend/app/servermgr/service.py:345-360 | derives the container environment from the stash |
| ModelPrep.ContainerServesSelection | backend/app/servermgr/service.py:345-360 | preparing and building: the selection is served, splits back exactly if comma-free, the default is part of it, offline exactly if all models were stored, no input of the preparation leaks |
| Properties.LoadProperties | agent/app/core/config_loader.py:22-52 | the reading loop computes the fold over the parsed lines; a missing file is empty |
| Properties.EqualsLine | agent/app/core/config_loader.py:44-50 | the first equals sign separates, whatever colons stand before it |
| Properties.ColonLine | agent/app/core/config_loader.py:44-50 | without an equals sign the first colon separates |
| Properties.SilentLine | agent/app/core/config_loader.py:41-42 | exactly blank lines, comments and lines without separator define nothing |
| Properties.EditExisting | agent/app/core/config_loader.py:65-87 | the editing loop rewrites exactly the lines that define an updated key and reports those keys |
| Properties.AppendMissing | agent/app/core/config_loader.py:89-92 | appends the keys not found, in order |
| Properties.UpdateProperties | agent/app/core/config_loader.py:55-95 | writes the edited text, or nothing without a file |
| Properties.EntriesAreCanonical | agent/app/core/config_loader.py:39-50 | whatever the reader extracts can be written on one line and read back |
| Properties.RenderReadsBack | agent/app/core/config_loader.py:79 | a canonical key and value written as a line are read back unchanged |
| Properties.LoadAfterUpdate | agent/app/core/config_loader.py:55-97 | loading after updating is the old map overridden by the updates, for every file, if and only if all updates are canonical |
| Properties.UntouchedLinesSurvive | agent/app/core/config_loader.py:68-87 | for all updates: every line has its place in the new file, in the same order; a line that defines no updated key stands there verbatim, an updated one as `key=value`, over as many lines as that takes |
| Properties.AppendedLines | agent/app/core/config_loader.py:89-95 | for all updates: behind them stand exactly the updated keys that the file lacked; lines keep their numbers if every value fits one line |
| Properties.UpdateTwice | agent/app/core/config_loader.py:55-95 | for every file: a second application changes nothing if and only if every key can be read back and every value fits one line |
| Properties.Grows | agent/app/core/config_loader.py:89-95 | otherwise every application changes every file |
| Placeholders.PrefixMatch | agent/app/core/config_loader.py:17 | the deterministic prefix match finds a placeholder exactly if the text starts with its spelling, and at most one does |
| Placeholders.ScanIsLeftmost | agent/app/core/config_loader.py:121 | the left-to-right scan yields the leftmost non-overlapping matches of the pattern |
| Placeholders.LeftmostIsUnique | agent/app/core/config_loader.py:121 | there is only one such list of matches, so backtracking never matters |
| Placeholders.ResolveIsSplice | agent/app/core/config_loader.py:100-121 | resolution keeps all text outside the matches and replaces each by its own replacement, which is not scanned again |
| Placeholders.OneResolves | agent/app/core/config_loader.py:108-119 | a property takes the place of its placeholder, even an empty one; else the default; else the text stays |
| Placeholders.SecondPassIsIdentity | agent/app/core/config_loader.py:100-121 | if everything inserted is inert, resolving again changes nothing |
| Placeholders.InertIsExact | agent/app/core/config_loader.py:100-121 | a text is safe to insert into every value if and only if it is inert |
| Limits.ParseLimitsConf | agent/app/hostmgr/service.py:418-430 | the parsing loop computes the entries of the lines |
| Limits.FourWords | agent/app/hostmgr/service.py:418-430 | an entry is domain, kind, item and value in this order; a comment is none |
| Limits.EditExisting | agent/app/hostmgr/service.py:452-470 | the editing loop rewrites exactly the matching lines and reports which kinds it found |
| Limits.UpdateLimitsConf | agent/app/hostmgr/service.py:433-485 | writes the edited text with a final newline, or nothing without a file |
| Limits.ParseAfterUpdate | agent/app/hostmgr/service.py:418-485 | the written file parses to the old entries with new values in place, followed by the missing ones |
| Limits.UpdateIsLocal | agent/app/hostmgr/service.py:433-485 | every entry for domain and item has the new soft or hard value according to its kind; all others keep value and order |
| Limits.SettingTakesEffect | agent/app/hostmgr/service.py:433-485 | the soft and the hard entry, each with its own value, are in the file afterwards if and only if the setting consists of plain words |
| Limits.UpdateTwice | agent/app/hostmgr/service.py:473-485 | a second update changes nothing if and only if the file does not lose a blank line |
| Limits.UpdateTwiceDiffers | agent/app/hostmgr/service.py:473-485 | a file for every setting that a second update changes again |
| ResolvConf.GetNameservers | agent/app/hostmgr/service.py:247-279 | the reading loop gathers nameservers, search domains and options |
| ResolvConf.DirectivesAreRead | agent/app/hostmgr/service.py:262-277 | `nameserver`, `search`, `domain` and `options` each go into their own list |
| ResolvConf.UpperCaseDirective | agent/app/hostmgr/service.py:268 | in upper case, too |
| ResolvConf.CommentsSayNothing | agent/app/hostmgr/service.py:258-260 | comments of both kinds and blank lines say nothing |
| ResolvConf.UpdateNameservers | agent/app/hostmgr/service.py:287-335 | writes the preserved lines without blank tail, followed by the nameservers; an empty list is refused |
| ResolvConf.RemovedIsNameserver | agent/app/hostmgr/service.py:307-313 | removed lines say nothing but a nameserver, and kept lines name none, although the two tests differ |
| ResolvConf.ReadAfterUpdate | agent/app/hostmgr/service.py:247-335 | for every list: what is read afterwards is what was read before with the given nameservers if and only if every entry is one word |
| ResolvConf.SearchSurvives | agent/app/hostmgr/service.py:287-335 | for every list of nameservers: search domains and options are unchanged if and only if no entry holds a directive for them behind a line boundary |
| ResolvConf.EntryWithSearch | agent/app/hostmgr/service.py:321-322 | an entry that changes the search domains and leaves a line |
| ResolvConf.NameserversReadBack | agent/app/hostmgr/service.py:247-335 | the reader returns exactly the list written if and only if every entry is one word |
| ResolvConf.LastUpdateWins | agent/app/hostmgr/service.py:287-335 | a second update, with any list, forgets the first altogether if and only if no entry of the first leaves a line: one behind a line boundary that is neither blank nor taken for a nameserver |
| ResolvConf.UpdateTwice | agent/app/hostmgr/service.py:287-335 | the update is idempotent if and only if no entry leaves a line |
| SystemdUnit.RenderUnit | agent/app/servicemgr/service.py:84-123 | refuses exactly what the checks refuse and otherwise writes the lines of the unit in order |
| UnitDirectives.UnitSaysWhatWasAsked | agent/app/servicemgr/service.py:93-123 | a unit of single-line texts, read section by section, has every directive with its value and none that was not given |
| UnitDirectives.EnvironmentIsRead | agent/app/servicemgr/service.py:113-115 | each environment directive is read as name, equals sign and value |
| UnitDirectives.CommentLines | agent/app/servicemgr/service.py:93-100 | the comments in front: path, manager, kind and version |
| SystemdUnit.IntTextInjective | agent/app/servicemgr/service.py:118-119 | different limits are written differently |
| SystemdUnit.AcceptedExactly | agent/app/servicemgr/service.py:61-92 | refused are exactly names without prefix or with other characters and newlines in the checked texts |
| SystemdUnit.NameIs | agent/app/servicemgr/service.py:26 | what the pattern of names accepts |
| SystemdUnit.ReadMetadata | agent/app/servicemgr/service.py:136-148 | the reading loop computes kind and version, the last of each |
| SystemdUnit.EscapeIsOnePass | agent/app/servicemgr/service.py:114 | the two chained replacements are a one-pass escape |
| SystemdUnit.QuotedReadsBack | agent/app/servicemgr/service.py:113-115 | reading the quoted value gives it back and stops at the closing quote, so the escaped text has no bare quote |
| SystemdUnit.MetadataReadsBack | agent/app/servicemgr/service.py:84-148 | a unit whose other fields hide no metadata line behind a line boundary reads back kind and version, up to outer blanks, if and only if each of them fits one line up to final blanks |
| SystemdUnit.AlwaysReadsBack | agent/app/servicemgr/service.py:84-148 | every one-line kind and version of a unit is read back if and only if no metadata line hides in description, joined `after`, user, group, directory, an environment value, command, restart or wanted-by |
| SystemdUnit.HiddenLinesWin | agent/app/servicemgr/service.py:136-148 | for every unit: what is read is the unit's own metadata overlaid by whatever its other fields hide |
| SystemdUnit.LinesAreOrdinary | agent/app/servicemgr/service.py:143-147 | for every text: no line of `splitlines` is a metadata line if and only if the text neither begins like one nor has one directly behind a boundary |
| SystemdUnit.GuardIsEnough | agent/app/servicemgr/service.py:78-81 | what it would take instead: a guard of this kind on every text of the specification makes every unit it accepts read back if and only if it knows all boundaries of `splitlines` |
| SystemdUnit.CheckedFieldsAreTooFew | agent/app/servicemgr/service.py:84-100 | whatever the guard rejects in the fields the renderer checks, some accepted unit does not read back |
| SystemdUnit.KindForgesVersion | agent/app/servicemgr/service.py:97-100 | a kind with a line feed gives the same unit text as another kind together with a version |
| SystemdUnit.GuardOfTheCode | agent/app/servicemgr/service.py:78-81 | the two characters of the code's guard would not suffice even if it looked for them in every text |
| Storage.Bucket.ListKeys | backend/app/annotations/storage.py:167-217 | for any paging the token loop ends with exactly the selected keys, in order, each once |
| Storage.Bucket.DeletePage | backend/app/annotations/storage.py:156-157 | the batches have at most 1000 keys and partition the page |
| Storage.Bucket.DeletePrefix | backend/app/annotations/storage.py:140-164 | deletes exactly the keys under the prefix and reports them, each once, although deleting and listing interleave |
| Storage.SelectionIs | backend/app/annotations/storage.py:167-192 | with the delimiter, exactly the keys with no further slash are selected |
| Storage.NamesKept | backend/app/annotations/storage.py:32-36 | a blank file name is stored as `image`, a plain one keeps its name below its folder |
| Storage.UnderscoredIs | backend/app/annotations/storage.py:34 | slashes in a file name become underscores and nothing else changes |
| Storage.NormTwice | backend/app/annotations/storage.py:27-29 | normalising again changes nothing if and only if, besides slashes, the stripped path neither begins nor ends with a blank |
| Storage.FolderMatchIsExact | backend/app/annotations/service.py:396-401 | equality or LIKE selects exactly the folder and its subfolders if and only if the name has no wildcard or escape |
| Storage.RowsAndObjectsAgree | backend/app/annotations/service.py:393-410 | the rows and the objects deleted with a folder belong to the same images, whatever images were uploaded, if and only if the folder is not the root, has no wildcard and no outer blank |
| Storage.ObjectStays | backend/app/annotations/service.py:104 | an image uploaded to `/ / / x` loses its row and keeps its object when that folder is deleted |
| Storage.StoredAs | backend/app/annotations/service.py:104 | every folder without outer slashes, with outer blanks or not, is stored for some upload |
| Storage.RootDeleted | backend/app/annotations/router.py:304-314 | the route's refusal of the root is passed and the root deleted if and only if the path, up to outer blanks, consists of slashes at both ends and one or two runs of blanks between them |
| Storage.BlankFoldersRemain | backend/app/annotations/router.py:304-314 | with three runs of blanks a blank folder is left and the root is safe |
| Storage.RootObjectsRemain | backend/app/annotations/service.py:393-410 | such a path deletes exactly the rows of the root's images and none of the objects of any upload |
| Crops.RenderCrops | backend/app/annotations/crops.py:82-103 | crops plus skipped are the boxes; each crop is of its own box, in order; a box is skipped only if it has no text or no allowed rectangle is large enough |
| Crops.RenderOne | backend/app/annotations/crops.py:88-101 | the rectangle is the largest one inside image and padded box, has the minimum size and covers the clipped box |
| Crops.CropNameIsCrop | backend/app/annotations/crops.py:124-126 | every crop name is recognised as one of its stem |
| Crops.CropKeepsItsName | backend/app/annotations/storage.py:32-36 | a crop is stored under its own name exactly if the stem has no slash and no leading blank |
| Crops.Store.ExportCrops | backend/app/annotations/router.py:545-574 | uploads, manifests and orphan removal put together |
| Crops.RenderedNames | backend/app/annotations/crops.py:101 | crops of boxes with different ids have different names of the stem |
| Crops.FolderInLine | backend/app/annotations/router.py:545-574 | afterwards the crop-named objects directly in the folder are exactly the crops just rendered, with their images; manifests are new; crop-named objects in subfolders go unless named like one just rendered; all other objects are as before |
| ListWindow.ListImages | backend/app/annotations/service.py:208-264 | the two-part window is the clipped slice of the virtual list, for all integers as page and size |
| ListWindow.TwoParts | backend/app/annotations/service.py:241-262 | a window over a concatenation is the two shifted windows put together |
| ListWindow.AllPages | backend/app/annotations/service.py:241-264 | the first n pages reproduce the list if and only if it fits into n pages |
| ListWindow.ItemIsOnOnePage | backend/app/annotations/service.py:241-242 | every item is on exactly one page, at its own place |
| ListWindow.WindowIsStable | backend/app/annotations/service.py:247 | the database part of a page has the same rows in every order the query allows if and only if neither end of its window falls between rows created at the same time |
| ListWindow.FolderObjectItems | backend/app/annotations/service.py:174-205 | the read-only items are exactly the matching, unregistered image objects directly in the folder, each once, in name order |
| ListWindow.ShownMeans | backend/app/annotations/service.py:174-205 | what is listed, in plain terms: place, endings, no thumbnail, no row, found |
| ListWindow.FoundMeans | backend/app/annotations/service.py:200-201 | a file is found when its lower-cased name contains the lower-cased search text |
| ListWindow.StringLeqMeans | backend/app/annotations/service.py:203 | the order of names is lexicographic |
| ListWindow.SearchesAgree | backend/app/annotations/service.py:224-225 | the `ilike` search of the database and the substring search of the object half agree on all lower-cased texts if and only if the search text has no wildcard and no escape character |
| Sorting.SortFacts | backend/app/annotations/aihub.py:135 | the sort is ordered, a permutation and stable |
| AiHub.BoxRoundTrip | backend/app/annotations/aihub.py:76-99 | a box comes back from its entry exactly if it is normalised, and otherwise with its corners in order |
| AiHub.BuildExport | backend/app/annotations/aihub.py:106-143 | fills the blocks and writes the boxes in the order of their ids |
| AiHub.CornersOfEntry | backend/app/annotations/aihub.py:76-83 | the four points of an entry are the corners of its box |
| AiHub.ExportIsInOrder | backend/app/annotations/aihub.py:135 | the entries of an export are in the order of their ids |
| AiHub.BlocksAreFilled | backend/app/annotations/aihub.py:106-134 | which fields of the blocks an export fills in, and that it keeps the others |
| AiHub.ParseImport | backend/app/annotations/aihub.py:146-166 | refuses exactly documents with a box without coordinates; renumbers exactly if ids are missing, not positive or repeated |
| AiHub.CountingDuplicates | backend/app/annotations/aihub.py:162 | comparing the number of different ids with the number of boxes detects exactly the duplicates |
| AiHub.ImportIsProper | backend/app/annotations/aihub.py:146-166 | imported boxes have different positive ids, keep order and text, and are the smallest upright rectangles around their points |
| AiHub.ImportedIds | backend/app/annotations/aihub.py:160-165 | the ids of the document are kept if all are given, positive and different, else replaced by one to n |
| AiHub.ImportOfExport | backend/app/annotations/aihub.py:106-166 | importing an export gives the boxes sorted by id if and only if they are normalised with different positive ids; the size always comes back |
| AiHub.FurtherRoundTrips | backend/app/annotations/aihub.py:106-166 | after one more round trip nothing changes any more |
| AiHub.UpdateBoxes | backend/app/annotations/router.py:415-435 | refuses exactly repeated ids and otherwise clamps every box in place |
| AiHub.SavedIsInside | backend/app/annotations/schemas.py:19-26 | a normalised and clamped box lies in the image, and one is unchanged by that exactly if it did before |
| AiHub.SavedSurvives | backend/app/annotations/router.py:415-435 | what was saved survives export and import |
| Terminal.Manager.CreateSession | agent/app/terminal/service.py:86-129 | refuses at the maximum, opens a master, and files a new session with it unless the fork fails |
| Terminal.Manager.CloseSession | agent/app/terminal/service.py:156-208 | removes the session, closes its master and deactivates it; nothing for an unknown id |
| Terminal.Manager.Finish | agent/app/terminal/service.py:131-154 | activity on a session obtained earlier counts only while it is still filed |
| Terminal.Manager.FailedRead | agent/app/terminal/service.py:131-141 | a failed read marks the session and changes nothing else |
| Terminal.Manager.ReapStale | agent/app/terminal/service.py:57-70 | closes the sessions idle beyond the timeout |
| Terminal.Manager.CloseAll | agent/app/terminal/service.py:210-215 | closes all sessions |
| Terminal.RunIsSound | agent/app/terminal/service.py:86-215 | in every run live sessions hold distinct open masters, no master is closed twice, and the maximum is kept |
| Terminal.EventsTakeEffect | agent/app/terminal/service.py:156-215 | what closing, reaping and closing all remove, and what stays |
| Terminal.ActivityCounts | agent/app/terminal/service.py:30-38 | activity and creation keep a session for another 120 seconds |
| Terminal.ActivityTakesEffect | agent/app/terminal/service.py:131-154 | activity changes the time of its session and nothing else |
| Terminal.MastersAccountedFor | agent/app/terminal/service.py:86-215 | every open master has a live session if and only if no fork ever failed and no session was ever created under the id of a live one |
| Terminal.LeakIsForever | agent/app/terminal/service.py:93-121 | a master without a session is never closed or owned again |
| Terminal.ReapIsExact | agent/app/terminal/service.py:57-70 | reaping keeps exactly the sessions idle for at most the timeout and closes the masters of the others only |
| Terminal.CloseTwice | agent/app/terminal/service.py:165-167 | closing is idempotent |
| Terminal.CloseAllLeavesNone | agent/app/terminal/service.py:210-215 | nothing is live afterwards, and only leaked masters stay open |
| CronLoop.Setup.FieldMatches | agent/app/metrics/scheduler.py:36-57 | the field loop computes the verdict, including the exception for step zero |
| CronLoop.Setup.CronMatches | agent/app/metrics/scheduler.py:17-33 | five fields from left to right, up to the first that does not match |
| CronLoop.FieldMeaning | agent/app/metrics/scheduler.py:36-57 | a list of numbers matches its members, a step its multiples |
| CronLoop.MatchesMeaning | agent/app/metrics/scheduler.py:17-33 | an expression matches when its five fields match minute, hour, day, month and weekday |
| CronLoop.FiveFieldsOnly | agent/app/metrics/scheduler.py:17-33 | any other number of fields matches nothing, and a star matches everything |
| CronLoop.Scheduler.Poll | agent/app/metrics/scheduler.py:107-126 | one turn pushes exactly if the minute matches and its minute of the day is not the remembered one |
| CronLoop.Scheduler.Run | agent/app/metrics/scheduler.py:103-126 | the loop pushes at exactly the turns the specification names |
| CronLoop.AtMostOncePerMinute | agent/app/metrics/scheduler.py:110-116 | no calendar minute sees two pushes |
| CronLoop.SkippedExactly | agent/app/metrics/scheduler.py:110-116 | a due minute is left out if and only if the latest push was at the same minute of an earlier day |
| CronLoop.AllServed | agent/app/metrics/scheduler.py:110-116 | all due minutes are served if and only if no two due minutes in a row share the minute of the day |
| CronLoop.OnceForGood | agent/app/metrics/scheduler.py:110-116 | a schedule for one minute of the day pushes at most once in a run |
| CronLoop.SecondDayIsSkipped | agent/app/metrics/scheduler.py:110-116 | the failing run: `0 9 * * *` pushes on the first day and not on the second |
| CronLoop.EveryMinuteSampled | agent/app/metrics/scheduler.py:107-121 | with wake-ups at most a minute apart every minute in between is sampled |
| Evidence.BestPage | backend/app/documents/evidence.py:40-54 | the first page with the highest number of grams, page one without grams or pages |
| Evidence.GramsAreParts | backend/app/documents/evidence.py:45 | the grams of a text are its parts of five characters |
| Evidence.NormKeeps | backend/app/documents/evidence.py:35-37 | normalising keeps ASCII letters, digits and Hangul syllables, and nothing else |
| Evidence.BestIsUnique | backend/app/documents/evidence.py:47-54 | that description fits one page only |
| Evidence.WholeChunkFound | backend/app/documents/evidence.py:40-54 | if some page contains the whole chunk, the page returned contains all its grams |
| Evidence.Cache.Lookup | backend/app/documents/evidence.py:59-61 | a hit is answered and moved to the end |
| Evidence.Cache.Fetched | backend/app/documents/evidence.py:67-71 | the reply is stored as most recent and the oldest entries go |
| Evidence.RunIsLeastRecentlyUsed | backend/app/documents/evidence.py:57-71 | with misses interleaved at the await, the cache holds exactly the last 64 hashes used, in order, each with the latest reply that arrived for it |

## Left out

- Chunking, retrieval, ingestion queue, sweep planner and slot allocation are not part of this model.
- HTTP, websockets, database, S3, Docker and systemctl calls: only the state they read or write, or their replies as parameters.
- Copies of the same code in other extensions (model loading, metrics, configuration): one is modelled.
- ModelLoading: a build that returns `None` instead of a model, and the bodies of the builders with their GPU fallbacks.
- Metrics: the averages and their rounding; the host, GPU and model parts of a snapshot are one opaque value.
- Agents: the metrics columns of the tables are one opaque value; heartbeats commit as one step.
- ModelInstall.Volume.Install: two installations of the same target at once are in ConcurrentInstall, with clearing, layout and rename as one step each; revisions are paths of components without slash; a target that is the working directory of another one in use is excluded; empty directories are not represented; a marker that is JSON but not an object counts as unreadable; removing and renaming a tree are single steps, except in DeletionIsSafeWhenMarkerGoesFirst.
- ConcurrentInstall.InstallsMustNotMix: the "only if" half for the hf-cache layout and for archives with common files, where ConcurrentInstall.SwapIsHonest speaks of one swap.
- ModelPrep.Prepare: the choice of a revision in the store and the presigned URLs; whether a model is stored is a parameter. The vlm path is left out.
- `_resolve_dict`, `load_yaml` and `load_config`: they walk a document and apply the placeholder resolution that is modelled.
- Properties.UpdateProperties: the file is written in one step.
- Limits.ParseAfterUpdate: for settings of plain words; for all others Limits.SettingTakesEffect says that they do not take effect.
- Limits.UpdateTwice: for settings of plain words.
- Crops.FolderInLine: for nonempty stems whose crops keep their names (Crops.CropKeepsItsName) and boxes with different ids.
- `_parse_show`, `_int_or_none` and the life cycle of units: one branch each over systemctl's output.
- SystemdUnit.QuotedReadsBack: of systemd's quoting rules only backslash and quote, which are all the renderer escapes.
- Crops: image decoding and PNG encoding; `build_jsonl` is a text given to the export.
- ListWindow.ListImages: both sources are read at one moment, and the database filters are part of the given list.
- ListWindow.FolderObjectItems: the display fields of an item besides key and file name.
- AiHub.ParseImport: values that `int` or `dict` reject; the split of a file name into stem and extension, and the dataset identifier guessed from it, are parameters of the export.
- Terminal: reuse of descriptor numbers, the slave end of the PTY (a failing fork leaves it open too), child processes and signals; one reaping round reads the clock once.
- CronLoop: `reschedule` starts a new run with an empty memory; changes of the local clock are excluded by nondecreasing wake-ups.
- Evidence.Cache.Fetched: a failing render service stores nothing and is no event; base64 and the request itself are left out.
- Role checks, API keys and request schemas other than the box rule.
