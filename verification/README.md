# A verified model of the backup supervisor

The supervisor watches containers for `gobackup.*` labels, renders one gobackup
configuration from them, and keeps one gobackup container, the engine, mounted and
configured to run it. This project models what it does between reading labels and leaving
the engine alone, and proves what the pieces promise each other. `dafny verify
dfyconfig.toml` checks all of it (Dafny 4.11).

The files, in the order in which a pass uses them:

- `Trigger`: the one-slot channel, the timer and the loop that runs reconciles.
- `Replacement`, `Supervisor`, `Safety`, `Runs`, `OldRecords`, `Convergence`, `Delivery`: replacing the engine under a
  write-ahead record. `Replacement` is the protocol as functions from worlds (containers,
  record on disk, what a power loss may make of it, log of requests) and replies to worlds;
  `Supervisor` is the program, a class with a daemon and a disk behind it, each method proved
  to do what the function says; `Safety` proves what every step keeps, `Runs` and `OldRecords` what
  every run keeps, crashes and power losses included, and what a record does that comes back,
  `Convergence` where runs end, and `Delivery` what a pass that succeeds has given the engine.
- `AtomicFile`, `RecordFile`: how the config and the record get to disk, and that this is what
  the protocol takes saving and clearing the record for.
- `Trees`, `Document`, `Paths`, `Text`: configuration values, as trees, and as the maps and
  lists on the heap that the program shares and updates in place. A `Shape` says which
  objects make up a value; `Rep` that each is in one place only; `TreeOf` which tree it is.
- `Discovery`, `Labels`, `Merging`, `Templates`, `Coerce`, `Credentials`, `Model`: from listed
  containers, their labels and the profiles to the config document. `Acceptance` says which
  containers come to a model, and what the document then has, without these steps.
- `Volumes`, `Collecting`: the client volumes that the engine needs, for one model and for all.
  `Rewriting`, `VolumePhase`: the same on the document, as trees and in place. `Positions` says
  by the places of the document what moves and what is mounted for it.
- `Locations`, `PathMeaning`, `PathLimits`, `Collisions`: what a container's kernel makes of a path,
  what the rewritten paths lead to, where that is not what the client had, and when two
  models or mounts are taken for one.
- `Expansion`, `Escape`, `ConfigEscape`, `FileText`, `ConfigFile`, `ReadPaths`: escaping `$`,
  against the text expansion that gobackup applies to its whole config file (Go's `os.Expand`):
  of one value, of the document, of a text of escaped and unescaped parts, of the whole file,
  and of the paths in it.
- `EngineCreds`, `Shell`, `Command`, `Wrapper`, `EngineEnvironment`, `EngineSpec`, `Docker`:
  credentials, the shell wrapper read and run by a model of the POSIX shell (IEEE Std
  1003.1-2017, Shell Command Language, sections 2.2, 2.3, 2.6.3, 2.9 and 2.14), the variables
  that gobackup ends up with, and the spec of the engine container.
- `Pipeline`, `EnginePass`: the pieces put together.

## What is assumed

- A `char` is one byte. `Env` is an environment; an unset variable reads as empty.
- Container IDs are numbers given in increasing order, 0 standing for the empty ID; names are
  unique. The daemon lists containers newest first. `Replacement.Allowed` says what others may
  do: anything, at any time, except create an engine component or a container marked as a
  replacement, or remove an engine that is not being replaced. There is one engine at the start.
- A call to the daemon, or a step on disk, may be served, refused without effect, take effect
  with its answer lost, or be the last before a crash (`Fault`); other containers may change
  before each (`Reply`). A loss of power leaves one of the records that the directory was not
  synced past (`Replacement.AfterLoss`); what the daemon was told it keeps.
- Mount destinations are absolute, below the root, clean and distinct, as Docker makes them
  (`PathMeaning.WellPlaced`). There are no symbolic links.
- The encoder writes keys and values with text between them that is not empty, holds no `$`, and
  begins with a byte that ends a reference: no name byte, no brace, none of `*#$@!?-`
  (`ConfigFile.AllSeparate`).
- What `cat` prints is a function of the data behind a path; the shell drops the newlines at its
  end.
- A container created from a spec shows that spec when inspected, and may show more: variables,
  labels and networks of its image, its image's command if the spec has none, and volumes
  outside the two managed directories (`EngineSpec.Echoes`).
- The engine's image has no entrypoint: a container runs its command as it is given.
- A container that is inspected answers or not, in each of the two phases of volume discovery on its
  own (`Rewriting.Answer`).
- Writing the record and reading it back, and writing the base command into its label and reading
  it back, are inverse, except that an empty command is not recovered.
- Evaluating a template is a parameter: any function from the model's data and a string to a
  string or a failure.

## What the code does that one might not expect

Each is a lemma with the condition, or a concrete case:

- A base command that is empty, or a `gobackup_container.command` of blanks only, makes every
  pass replace the engine again (`EngineSpec.CommandSettlesExactly`,
  `Convergence.SettlesAfterReplacement`). So does the order of `_file` credentials, which is the
  iteration order of a label map (`EngineSpec.ReorderedExportsReplace`).
- After a config write that took effect but reported an error, going back to the previous config
  is reported as done and unchanged, and the file keeps the other one
  (`AtomicFile.RevertIsSkipped`, exactly when: `AtomicFile.BeliefIsRightExactly`).
- The comment on `credVarName` calls it collision-proof; two credentials share a variable exactly
  when model and path differ in no more than case and punctuation
  (`Credentials.CredVarCollides`).
- A credential whose path goes through an inline value replaces it without an error
  (`Credentials.InlineValueIsKeptExactly`).
- A `_file` credential under a mounted directory mounts the directory, not the file
  (`EngineCreds.SecretIsTheClientsExactly`).
- On a name collision the model comes from the first container that comes to one, its volumes
  from the last of that name (`Model.OwnerIsTheKeeper`).
- Labels are order dependent exactly when one config label with a dot behind it begins another
  (`Labels.ParsingIsOrderFreeExactly`).
- Map keys, and the includes and excludes that volume discovery wrote, are not escaped. The file
  is read as it is meant, in every environment, exactly when none of them holds a `$` before
  a byte that `os.Expand` does not leave alone (`ConfigFile.DocumentIsReadExactly`,
  `Pipeline.FileIsReadAsMeantExactly`). Otherwise a path may name another file
  (`ReadPaths.DollarNamesAnother`), and a neighbouring password may be lost
  (`ConfigFile.NeighbourIsLost`).
- Volume discovery compares paths as text. A path that is rewritten and does not climb out of its
  start leads to the same data exactly when the mount that the kernel finds is one that the
  model asks for, and can be written exactly when a database asks for it
  (`PathMeaning.SameDataExactly`); every clean path on a mount that can be shared does. With a
  mount inside another, a second slash is enough to miss it (`PathLimits.DoubleSlashMisses`), or
  to find a database read-only (`PathLimits.DatabaseBesideArchive`). A path that climbs finds
  its data only where that is mounted twice (`PathLimits.ClimbingMisses`).
- Only the mount that holds an included directory is asked for, not those mounted inside it: what
  they hold is missing from the archive without an error (`PathLimits.NestedMountIsMissed`). The
  engine has the whole tree of an include exactly when each mount in it can be shared and is
  asked for itself (`PathMeaning.SameTreeExactly`).
- A slash in a model's name lets two models ask for one target, and one gets the other's data
  (`Collisions.SlashesCollide`, exactly when: `Collisions.TargetsCollideExactly`). A colon in a
  source may drop another model's mount (`Collecting.MarkedSourcesCollide`, exactly when:
  `Collecting.KeyCollidesExactly`, `Collisions.ArchivesAreServedExactly`). A bar in a source may
  keep the engine on the mounts of a model that is gone (`Collisions.BarsCollide`, exactly when:
  `EngineSpec.MountKeyCollidesExactly`).
- A model name with an empty part, `.` or `..` between slashes makes a target that Docker cleans, so
  that no engine has the mount as it is wanted and every pass replaces the engine
  (`PathLimits.UncleanNeverSettles`, exactly when: `PathLimits.TargetIsCleanExactly`).
- Another image, network, label or base variable in the settings replaces nothing by itself: only
  mounts, command and added variables are compared (`Delivery.NeededExactly`). It counts when the
  engine is replaced for another reason (`Delivery.PassMakesFrom`).
- A container whose only labels are credentials is no source (`Discovery.Discover`).
- With secret files and no base command the wrapper execs nothing, and no engine starts
  (`Wrapper.WrapperRuns`, `EngineEnvironment.EngineStarts`).
- Clearing the record is not synced, so the record of a finished replacement may come back when the
  power is lost. It is cleared again if the engine was made for it; otherwise every pass fails
  before any request (`OldRecords.OldRecordBlocksExactly`). That takes a further replacement
  whose save was answered late (`OldRecords.LateSaveOrphansExactly`).
- A record whose save was answered after the rename, because the directory could not be opened or
  synced, is acted on by the next pass without being synced. A loss of power then can leave
  neither engine nor record (`Runs.FatalRunIsFatal`); a save is safe under all continuations
  exactly when it was not answered so (`Runs.SaveIsSafeExactly`).

## Model

| member | source | states |
|---|---|---|
| `Trigger.Loop.DoFire` | cmd/gobackup-docker/main.go:55-61 | a fire never blocks and leaves the slot full, whatever it was |
| `Trigger.Loop.Turn` | internal/pipeline/reconcile.go:105-117 | a turn of the select takes one ready case and does exactly its transition, failure arming the timer again |
| `Trigger.Loop.Run` | internal/pipeline/reconcile.go:99-118 | the loop under any schedule of fires and timer expiries is in the state the event sequence gives |
| `Trigger.NoLostWakeup` | internal/pipeline/reconcile.go:99-118 | in every interleaving, from a fire or a failed reconcile until the next reconcile begins, the slot is full or the timer armed |
| `Trigger.RestsOnlyWhenDone` | internal/pipeline/reconcile.go:99-118 | the loop has nothing left to do only after a reconcile that began later than the last fire |
| `Trigger.NeverStuck` | internal/pipeline/reconcile.go:105-117 | with a request pending some case of the loop is ready |
| `Trigger.EveryFireIsServed` | internal/pipeline/reconcile.go:99-118 | once fires pause, three turns of the loop are enough for a later reconcile to begin |
| `Discovery.Discover` | internal/pipeline/reconcile.go:311-338 | the sources come in order from exactly the containers that are enabled, have a label for the model other than credentials and are not claimed by another instance, with the names, references and values of their labels |
| `Supervisor.Host.SaveRecord` | internal/apply/filewatch.go:43-76 | saving leaves the old record or the new one; if it is answered after the rename, a power loss may bring the old one back |
| `Supervisor.ResumeGobackupReplacement` | internal/pipeline/manage.go:150-184 | the program's steps, replies and result are those of the protocol, branch by branch, for every sequence of replies |
| `Supervisor.FindGobackupContainer` | internal/pipeline/manage.go:66-81 | the newest container with the component label is found, or an error or absence is told apart |
| `Supervisor.EnsureGobackupContainer` | internal/pipeline/manage.go:83-148 | recovery first, nothing more without additions, and a new record before a replacement, as the protocol says |
| `Supervisor.Reconcile` | internal/pipeline/reconcile.go:122-228 | a whole pass leaves the world the protocol says and keeps the invariant of all runs; if it succeeds with something to add, the engine has it |
| `Safety.ResumeKeeps` | internal/pipeline/manage.go:150-184 | whatever the replies, carrying out a record keeps the invariant, changes on disk at most that the record is cleared, and succeeds only with the replacement in place |
| `Safety.ReconcileKeeps` | internal/pipeline/reconcile.go:122-228 | a whole pass keeps the protocol invariant under any faults and outside changes |
| `Runs.RunKeeps` | internal/pipeline/manage.go:83-184 | the protocol invariant holds in every world that any run of passes, faults, crashes, outside changes and power losses reaches, if no save before a power loss was answered late |
| `Runs.RunIsSecure` | internal/pipeline/manage.go:83-184 | without a late save, it holds with every record that a power loss could leave, in every world of the run |
| `Runs.SaveIsSafeExactly` | internal/apply/filewatch.go:69-76 | a save leaves an engine or the way to it under all continuations without a further late save, if and only if it was not itself answered after the rename |
| `Runs.FatalRunIsFatal` | internal/pipeline/manage.go:91-102 | after a late save, the next pass stops and removes the engine, and a power loss then leaves neither engine nor record |
| `OldRecords.RunSound` | internal/pipeline/manage.go:83-184 | if no power is lost between a late save and the end of its replacement, then in every world of the run the invariant holds, or would without a record that was carried out and came back |
| `OldRecords.Recoverable` | internal/pipeline/manage.go:142-148 | in every world of such a run, power losses included, an engine exists or a valid record on disk says how to make it |
| `OldRecords.NothingElseIsStopped` | internal/pipeline/manage.go:150-168 | in every such run a stop or remove was made with a valid record on disk and names its old container; without a late save, with a record that a power loss would have left there |
| `OldRecords.OneReplacementPerRecord` | internal/pipeline/manage.go:150-184 | over all retries, lost answers and power losses of such a run, at most one replacement is created for an old container |
| `OldRecords.Conserved` | internal/pipeline/manage.go:121-146 | name, and every mount outside the managed directories, of the first engine are held by the engine and the record in every world of such a run; image and base command too unless settings override them |
| `OldRecords.OldRecordBlocksExactly` | internal/pipeline/manage.go:166-168 | a record that was carried out and comes back makes every pass fail before any request, if and only if the engine was not made for it |
| `OldRecords.LateSaveOrphansExactly` | internal/pipeline/manage.go:178-180 | after a further replacement the record of the one before may still come back if and only if the save in between was late, and the engine was not made for it |
| `Safety.BuiltHolds` | internal/pipeline/manage.go:228-272 | the spec built from an engine holds all that is handed down, each mount as often as before |
| `Convergence.QuietResume` | internal/pipeline/manage.go:150-184 | one undisturbed resume runs the replacement from the recorded spec and clears the record, or changes nothing if a foreign container holds the name |
| `Convergence.QuietRecovery` | internal/pipeline/reconcile.go:122-135 | one undisturbed pass recovers if and only if no foreign container holds the name, even if rendering then fails |
| `Convergence.ForeignIsLeftAlone` | internal/pipeline/manage.go:166-168 | a foreign holder of the name leaves daemon and record as they were |
| `Convergence.BadRecordIsLeftAlone` | internal/pipeline/manage.go:90-106 | a record that is unreadable or invalid stops the pass before it touches anything |
| `Convergence.FailedRecovery` | internal/pipeline/manage.go:150-184 | a pass that does not finish the replacement was disturbed, and leaves a world from which it can still be finished |
| `Convergence.RecoveryEnds` | internal/pipeline/manage.go:83-184 | under k disturbances at most k + 1 passes are needed |
| `Convergence.QuietSync` | internal/pipeline/manage.go:112-130 | an engine that needs no replacement is not touched; one that does gets requests |
| `Convergence.SettlesAfterReplacement` | internal/pipeline/manage.go:121-130 | after a replacement a pass with the same settings and additions changes nothing, if and only if the command settles |
| `Convergence.PassSettles` | internal/pipeline/manage.go:83-148 | with a base command, after any pass that succeeds the next equal pass changes nothing |
| `Delivery.PassDelivers` | internal/pipeline/reconcile.go:188-222 | whatever went wrong on the way, a pass that succeeds with something to add names the engine as its result, and that has every variable, in the supervised directories exactly the mounts, and the command wrapped in exactly the exports |
| `Delivery.EnsureDelivers` | internal/pipeline/manage.go:107-148 | so does any synchronisation that succeeds, after a recovery or without |
| `Delivery.QuietPassSucceedsExactly` | internal/pipeline/reconcile.go:122-228 | a pass that renders and meets nothing in its way succeeds, if and only if no foreign container holds the name that a record on disk needs |
| `Delivery.QuietPassRestsExactly` | internal/pipeline/manage.go:121-130 | without a record, a quiet pass makes no request if and only if the engine has every variable, exactly the mounts and the right command, or has no name or image to be replaced under |
| `Delivery.NeededExactly` | internal/pipeline/manage.go:353-370 | a replacement is needed if and only if a variable, a mount or the command is not as wanted, each spelled out |
| `Delivery.MountsAreShown` | internal/pipeline/manage.go:329-347 | inspect shows a mount of the supervised directories if and only if it is wanted, with its kind, place, volume or host path, and mode |
| `Delivery.PassMakesFrom` | internal/pipeline/manage.go:107-148 | a pass that succeeds without a record to carry out leaves the same engine, or one made from it in which the settings win, field by field |
| `Delivery.SettingsWin` | internal/pipeline/manage.go:222-272 | image, networks, labels and variables of a built spec: from the settings where these say something, else from the old container; the variables are exactly those, with the credentials on top |
| `AtomicFile.Directory.AtomicWrite` | internal/apply/filewatch.go:43-76 | at every step, and after a crash at it, the path names the old file or the whole new one; success means durable; which errors come after the rename, and what a crash may then undo; no temporary file stays |
| `AtomicFile.FileWriter.Apply` | internal/apply/filewatch.go:26-39 | the file, the remembered bytes and the two results after a request, for every failure |
| `AtomicFile.BeliefIsRightExactly` | internal/apply/filewatch.go:26-39 | over any run of requests the remembered bytes are in the file if and only if no write took effect with an error since they were remembered |
| `AtomicFile.SuccessMeansWritten` | internal/apply/filewatch.go:26-39 | a successful request leaves the file as asked, if and only if it wrote or the writer was not astray |
| `AtomicFile.OnlyValidIsWritten` | internal/apply/filewatch.go:26-39 | only bytes that parse get into the file, and what was reported as applied is not written again |
| `AtomicFile.RevertIsSkipped` | internal/apply/filewatch.go:27-36 | the three requests after which success is reported and the file holds another config |
| `RecordFile.ClearIsARemoval` | internal/pipeline/manage.go:178-180 | clearing leaves no file and syncs nothing, so a crash may leave whatever it might have left before |
| `RecordFile.SaveIsTheWrite` | internal/pipeline/manage.go:142-145 | whatever step of the write fails, the record on disk, what a crash may leave and the answer are those of the protocol's save |
| `RecordFile.EveryMomentIsASave` | internal/apply/filewatch.go:43-76 | dying at any moment of the write leaves the disk as the protocol has it for some fault |
| `RecordFile.LossIsACrash` | internal/apply/filewatch.go:69-76 | a power loss leaves exactly one of the entries that the directory may have |
| `EngineSpec.MergeMounts` | internal/pipeline/manage.go:409-419 | the unmanaged mounts in order, then the new managed ones |
| `EngineSpec.MountsEqual` | internal/pipeline/manage.go:329-347 | decides equal count and every current key wanted |
| `EngineSpec.MountKeyCollidesExactly` | internal/pipeline/manage.go:349-351 | two mounts have one key if and only if they are the same, or differ in source and target only and one source is the other with a bar and the text that begins the other target |
| `EngineSpec.BarFreeTellsApart` | internal/pipeline/manage.go:349-351 | keys tell mounts apart if no source holds a bar, or no target does |
| `EngineSpec.MountsEqualIsExact` | internal/pipeline/manage.go:329-347 | for distinct targets, and unless a mount is taken for another by its key, the comparison by count and keys is equality of the mounts in any order |
| `Collisions.BarsCollide` | internal/pipeline/manage.go:329-351 | the mounts of a gone model and of a new one, of different sources and targets, compare equal, and the engine keeps the old |
| `EngineSpec.MergeEnv` | internal/pipeline/manage.go:305-320 | the base entries whose variable no credential sets, then the credentials |
| `EngineSpec.MergedEnvMeaning` | internal/pipeline/manage.go:305-320 | an entry is in the result if and only if it is a credential, or in the base with a variable no credential sets |
| `EngineSpec.BuildGobackupSpec` | internal/pipeline/manage.go:228-272 | the spec field by field: settings first, else the old container; command wrapped from the unwrapped base |
| `EngineSpec.CheckRecreate` | internal/pipeline/manage.go:357-370 | replacement is needed for other mounts, another command or a missing credential entry, and for nothing else; what that means is Delivery.NeededExactly |
| `EngineSpec.MountsSettle` | internal/pipeline/manage.go:401-433 | merging the same managed mounts into what was made of them asks for the same mounts |
| `EngineSpec.CommandSettlesExactly` | internal/pipeline/manage.go:277-301 | the base command recovered from a replacement wraps to its command if and only if there is a base command, or settings make up for it |
| `EngineSpec.OneReplacementIsEnough` | internal/pipeline/manage.go:121-130 | a replacement made from the built spec needs no replacement itself, if and only if its command settles |
| `EngineSpec.ReorderedExportsReplace` | internal/pipeline/manage.go:198-215 | the same secrets exported in another order make the engine be replaced |
| `Command.WrapCommandWithSecrets` | internal/pipeline/manage.go:198-215 | the base command as it is without exports, else a shell running the script |
| `Command.ReadQuoted` | internal/pipeline/manage.go:217-221 | the shell reads a quoted string back as that string, in any context |
| `Command.ScriptMeaning` | internal/pipeline/manage.go:193-215 | the shell reads the script as the exports, each running cat on exactly its path, then an exec of exactly the base arguments |
| `Command.WrappedInjective` | internal/pipeline/manage.go:198-215 | scripts are equal only for equal base commands and equal exports in order |
| `Volumes.BuildDestMap` | internal/pipeline/volumes.go:159-165 | destinations without trailing slashes, the last mount winning |
| `Volumes.FindMountForPath` | internal/pipeline/volumes.go:167-189 | the longest destination that contains the path, or none, whatever the iteration order |
| `Volumes.ResolvePathMount` | internal/pipeline/volumes.go:94-106 | the mount for the engine and the rewritten path, or no mount |
| `Volumes.DiscoverArchiveVolumes` | internal/pipeline/volumes.go:35-89 | each needed mount once and no other, and the rewritten includes in order, those without a mount left out |
| `Volumes.SqliteMountsForModel` | internal/pipeline/volumes.go:113-137 | each needed writable mount once and no other, and every database rewritten or left, in any iteration order |
| `Volumes.DedupByKey` | internal/pipeline/volumes.go:234-249 | the first mount of each source and target |
| `Volumes.DedupMountsByTarget` | internal/pipeline/volumes.go:143-157 | one mount per target in order of first appearance, made writable in place if any was |
| `Volumes.ByTargetMeaning` | internal/pipeline/volumes.go:139-157 | targets are distinct afterwards, nothing is invented and every mount asked for is served by one as writable |
| `Collecting.KeyCollidesExactly` | internal/pipeline/volumes.go:234-241 | two mounts share a key if and only if source and target are equal, or a piece of text between two colons belongs to one source and to the other target |
| `Collecting.ProcessArchiveVolumes` | internal/pipeline/reconcile.go:361-402 | over all models, only mounts that archives need, one for each key, all that they need if no two targets share a key; and each model's rewritten includes |
| `Collecting.ProcessSqliteVolumes` | internal/pipeline/reconcile.go:407-432 | over all models, writable mounts for exactly what databases need, and their paths rewritten |
| `Collecting.CollectMounts` | internal/pipeline/reconcile.go:141-149 | both phases, deduplicated: only what models need, no target twice; all that databases need served, one of each key that archives need, and all of it if no two archive targets share a key |
| `Collecting.MarkedSourcesCollide` | internal/pipeline/volumes.go:234-241 | two models of which the second loses its mount, because a piece of its source is in the first one's target |
| `Collisions.ArchivesAreServedExactly` | internal/pipeline/volumes.go:234-249 | one mount for each key serves every archive if and only if no two targets share a key |
| `Collisions.MarkedSourcesStarve` | internal/pipeline/volumes.go:234-249 | for two models as Docker allows them, no list with one mount for each key serves both |
| `Collisions.TargetsCollideExactly` | internal/pipeline/volumes.go:99-105 | two models are given one target if and only if a piece of one destination is the end of the other model's name |
| `Rewriting.WrittenIsReadBack` | internal/pipeline/reconcile.go:471-486 | reading a model's includes and database paths after they were written gives exactly the rewritten ones, the excludes as before |
| `Rewriting.RestIsKept` | internal/pipeline/volumes.go:207-232 | volume discovery changes no scalar outside includes, excludes and database paths, and adds none |
| `Rewriting.RewritingHarmsExactly` | internal/pipeline/volumes.go:227-232 | of documents without a harmful dollar, rewriting spoils exactly those in which it writes an include or exclude with one |
| `VolumePhase.ToStrSlice` | internal/pipeline/reconcile.go:471-486 | the strings of a []string, or of a list, in order |
| `VolumePhase.WriteModel` | internal/pipeline/volumes.go:207-232 | in place: includes that have a mount and the excludes become []string, rewritten database paths are set, and nothing else |
| `VolumePhase.RewriteModels` | internal/pipeline/reconcile.go:137-149 | the whole phase on the document: by its places, the models whose container answered in either phase move and the others stay, the writable targets are exactly those that databases ask for, and any other is one that an include asks for |
| `Positions.FoundExactly` | internal/pipeline/volumes.go:167-189 | the lookup finds a destination if and only if some mount holds the path, and then that of an innermost one |
| `Positions.DatabasePathExactly` | internal/pipeline/volumes.go:113-137 | for every database of the document: its path moves behind the directory of the model if and only if its type is the string sqlite, the path is not empty, not moved yet and on a mount of the container, and this answered; any other path stays |
| `Positions.ListsExactly` | internal/pipeline/volumes.go:43-89 | the includes become, in order, those on a mount, moved, if there is one; the excludes become a list of the same strings if there are includes; else each stays |
| `Positions.CollectedTargets` | internal/pipeline/volumes.go:113-157 | a target is mounted writable if and only if a database of the document asks for it, and is mounted at all only if a database or an include does |
| `Positions.IncludesAreMounted` | internal/pipeline/volumes.go:43-89 | what an include of the document asks for is mounted, if all that is wanted is served |
| `Locations.UnderModel` | internal/pipeline/volumes.go:105-105 | where the kernel finds a path behind /volumes/<model>: at its own place below that directory, less the levels that it climbs |
| `PathMeaning.BackingIsTheMount` | internal/pipeline/volumes.go:167-189 | for a clean path, trailing slashes aside, the lookup by text finds the mount that the client's kernel finds |
| `PathMeaning.SamePlaceExactly` | internal/pipeline/volumes.go:91-106 | for every place of a client the engine has the same data below the directory of the model if and only if the mount there is one that the model asks for, and can write it if and only if a database asks for that mount |
| `PathMeaning.SameDataExactly` | internal/pipeline/volumes.go:91-106 | a rewritten path that does not climb names in the engine, among all models' mounts and its own, the same source and place as in the client, if and only if the mount that the kernel finds is asked for; and can be written if and only if a database asks for it |
| `PathMeaning.CleanPathsKeepTheirData` | internal/pipeline/volumes.go:91-137 | every clean path that is rewritten keeps its data if and only if its mount is a bind or a volume, and then a clean database path can be written |
| `PathMeaning.SameTreeExactly` | internal/pipeline/volumes.go:35-89 | the engine has at and below a rewritten path that does not climb all that the client has there, if and only if the mount that the kernel finds for it, and each mount below it, can be shared and is itself asked for |
| `PathLimits.SameDataOrClimbing` | internal/pipeline/volumes.go:91-106 | where no data is mounted twice, a rewritten path keeps its data if and only if it does not climb and the mount that the kernel finds is asked for |
| `PathLimits.ClimbingMisses` | internal/pipeline/volumes.go:105-105 | a path that climbs finds its data only where that is mounted a second time |
| `PathLimits.DoubleSlashMisses` | internal/pipeline/volumes.go:167-189 | with one mount inside another, an include with a second slash is read from the inner mount in the client and not in the engine |
| `PathLimits.DatabaseBesideArchive` | internal/pipeline/volumes.go:108-137 | a database path spelled so, beside an archive of the inner mount, is found but cannot be written |
| `PathLimits.NestedMountIsMissed` | internal/pipeline/volumes.go:35-89 | with one mount inside another and the outer directory as the include, the engine has the directory and not the files of the inner mount |
| `PathLimits.TargetIsCleanExactly` | internal/pipeline/volumes.go:99-105 | the target of a clean destination is clean if and only if the model has a name whose parts between slashes stand for themselves |
| `PathLimits.UncleanNeverSettles` | internal/pipeline/manage.go:329-347 | with another target among the wanted ones, no container has the wanted mounts, unless a mount is taken for another by its key |
| `ReadPaths.WrittenIncludesKeepTheirData` | internal/pipeline/volumes.go:207-232 | a written include is read as it is written in every environment if and only if each dollar in it is literally meant and harmless; then a clean one, as gobackup reads it, names what it named in the client if and only if that mount can be shared, and has the whole tree below it if and only if each mount in that tree can be shared and is asked for |
| `ReadPaths.DollarNamesAnother` | internal/pipeline/volumes.go:227-229 | with a dollar and a special byte in its name, the engine reads another file of the same mount |
| `ReadPaths.WrittenDatabasesKeepTheirData` | internal/pipeline/volumes.go:108-137 | a rewritten database path is escaped: it is read as meant if and only if each dollar in it is literally meant; then a clean one on a bind or a volume names what it named in the client, on a writable mount |
| `Collisions.SlashesCollide` | internal/pipeline/volumes.go:99-105 | two models, one with a slash in its name: one mount is dropped, and that model's rewritten include leads to the other model's volume |
| `Escape.RefPrefixLen` | internal/render/escape.go:41-72 | the length of the reference at the start, which cannot be longer; 0 if and only if there is none |
| `Escape.HasBareDollar` | internal/render/escape.go:74-84 | decides whether some dollar has no reference after it |
| `Escape.EscapeBareDollars` | internal/render/escape.go:86-113 | the loop writes the escaped text |
| `Escape.EscapedHasNoBare` | internal/render/escape.go:86-91 | escaped text has no bare dollar, also across the seams of what was written |
| `Escape.BareIffChanged` | internal/render/escape.go:74-94 | escaping changes a text if and only if it has a bare dollar |
| `Escape.EscapeIsIdempotent` | internal/render/escape.go:86-91 | a second pass changes nothing |
| `Escape.ExpandEscapedThen` | internal/render/escape.go:9-30 | expanding an escaped value with any text behind that does not begin with a name byte is expanding the two apart |
| `Escape.ExpandUndoesEscape` | internal/render/escape.go:9-30 | for every string, expanding the escaped text gives the string with exactly its references replaced; the sentinel is needed only if there was a bare dollar |
| `Escape.LiteralSurvives` | internal/render/escape.go:9-30 | a value without references arrives byte for byte |
| `FileText.HarmlessExactly` | internal/render/escape.go:128-159 | text that is not escaped is read as it is meant, in every environment and before any text that closes it, if and only if no dollar in it is harmful |
| `FileText.ReadAsWrittenExactly` | internal/render/escape.go:128-159 | and byte for byte if and only if, besides, every dollar in it is literally meant |
| `FileText.EscapedIsReadExactly` | internal/render/escape.go:9-30 | an escaped value is read as the value, in every environment with the sentinel, if and only if every dollar in it is literally meant |
| `FileText.FileIsReadExactly` | internal/pipeline/reconcile.go:151-172 | a file of escaped and unescaped parts, expanded as one text, is read as it is meant in every environment with the sentinel if and only if no unescaped part holds a harmful dollar |
| `ConfigFile.DocumentIsReadExactly` | internal/pipeline/reconcile.go:151-172 | so is the escaped document, written in any key order, if and only if no key, no item of a []string and no other unescaped scalar holds one |
| `ConfigFile.DocumentIsRead` | internal/pipeline/reconcile.go:195-207 | and the sentinel is needed only if the walk escaped something |
| `ConfigFile.SentinelClosesBrace` | internal/render/escape.go:133-159 | unescaped text that opens a brace swallows the escaped value behind it up to its first literal dollar |
| `ConfigFile.NeighbourIsLost` | internal/render/escape.go:133-159 | a document with one harmful include, of which gobackup reads neither the include nor the password behind it |
| `Escape.OpenBraceSwallows` | internal/render/escape.go:133-159 | an unescaped open brace swallows all text up to the next closing one |
| `ConfigEscape.EscapeConfig` | internal/render/escape.go:115-131 | the document is escaped in place, and the result is true if and only if some string had a bare dollar |
| `ConfigEscape.EscapeValue` | internal/render/escape.go:133-159 | strings in maps and lists are replaced, maps and lists keep their identity, nothing new is shared |
| `ConfigEscape.EscapedFind` | internal/render/escape.go:115-118 | every key, list position and other scalar stays, and each string becomes its escaped text |
| `ConfigEscape.NoBareLeft` | internal/render/escape.go:115-118 | no position of the escaped document has a bare dollar |
| `ConfigEscape.EscapeConfigTwice` | internal/render/escape.go:86-91 | escaping a document a second time changes nothing |
| `ConfigEscape.ChangedIffBare` | internal/render/escape.go:133-159 | the document changes if and only if it had a bare dollar |
| `ConfigEscape.BareDollarPaths` | internal/render/escape.go:161-190 | the dotted texts of exactly the positions of strings with a bare dollar, one for each, in sorted order |
| `ConfigFile.RewrittenIncludesAreReadExactly` | internal/render/escape.go:156-158 | a []string goes to the file as it is, and all its items are read as they are meant in every environment if and only if none holds a harmful dollar |
| `Labels.Parse` | internal/labels/parse.go:75-103 | in whatever order the labels come: meta values, credential references as a multiset, and a new tree made of the config entries |
| `Labels.SuffixIsExact` | internal/labels/parse.go:122-130 | a segment is a credential reference exactly if it is one of the ten names |
| `Labels.CredExactly` | internal/labels/parse.go:105-130 | a label is a reference if and only if its last segment, behind another one, is one of the ten names; it asks for the key that this names, of that kind, in the value of the label |
| `Labels.ConfigExactly` | internal/labels/parse.go:75-103 | a label goes to the model if and only if it is gobackup. and segments that are no meta name and no credential; then its value goes to their path |
| `Labels.CredsAreTheLabels` | internal/labels/parse.go:93-103 | the references read are exactly those that labels name, each once |
| `Labels.MetaAreTheLabels` | internal/labels/parse.go:81-92 | name, instance and profile are the values of their labels, and the switch is what its label says or the default |
| `Labels.ParseBoolExactly` | internal/labels/parse.go:147-157 | a switch is on or off by the twelve words, in any letter case and with spaces around, and otherwise as the default |
| `Labels.OrderFreeExactly` | internal/labels/parse.go:132-145 | all orders of the entries build one tree if and only if no path is, or leads into, another |
| `Labels.ParsingIsOrderFreeExactly` | internal/labels/parse.go:77-103 | the same in terms of label names: no config label with a dot behind it begins another |
| `Labels.ModelIsTheLabels` | internal/labels/parse.go:77-103 | the model's values are exactly the config labels' values at their paths: no meta label, no credential |
| `Labels.SameCredentials` | internal/labels/parse.go:79-102 | any two orders give the same meta values, the same references each once, and the same tree if labels do not clash |
| `Paths.SetPath` | internal/labels/parse.go:132-145 | the cursor loop writes the value at the path, making and replacing maps on the way, in place |
| `Paths.SetAtMeaning` | internal/render/model.go:174-185 | the value is at the path, the way to it is maps, and every path off it is as before |
| `Paths.HasLeaf` | internal/render/model.go:157-172 | whether there is anything at the path |
| `Document.DeepCopy` | internal/render/merge.go:10-29 | an equal value that shares no map or list with anything |
| `Merging.DeepMerge` | internal/render/merge.go:31-43 | the base becomes the merge, in place; what it takes from the overlay is copied, and the overlay stays |
| `Merging.PruneOptOut` | internal/render/merge.go:45-58 | the map becomes the pruned one, in place |
| `Merging.MergeMeaning` | internal/render/merge.go:31-58 | a value is at a path afterwards if and only if it is not the opt-out mark and the labels put it there, or the profile did and no label hides it |
| `Merging.OptOutRemoves` | internal/render/merge.go:45-58 | nothing at or below an opted-out path is left |
| `Merging.UntouchedIsInherited` | internal/render/merge.go:31-58 | what no label touches is the profile's |
| `Merging.OverlayTwice` | internal/render/merge.go:33-43 | merging the same labels twice is merging them once |
| `Merging.RemergeChangesNothing` | internal/render/model.go:84-86 | merging and pruning again on the finished model changes nothing |
| `Templates.ExpandTemplates` | internal/render/merge.go:60-100 | in place, fails if and only if some string does, else every string is its evaluation |
| `Templates.ExpandedAt` | internal/render/merge.go:60-100 | evaluation keeps keys and values other than strings |
| `Coerce.CoerceTree` | internal/render/coerce.go:42-73 | in place, every value becomes its coerced one |
| `Coerce.CoercedAt` | internal/render/coerce.go:46-73 | what becomes of the value at each path; no path appears or goes |
| `Coerce.TextBecomes` | internal/render/coerce.go:46-74 | a string at a path becomes the list of its items at the seven places, else what its last key makes of it |
| `Coerce.OthersStay` | internal/render/coerce.go:46-74 | other scalars stay, and so do the strings of a list |
| `Coerce.ScalarExactly` | internal/render/coerce.go:113-128 | a string that says true or false in any letter case becomes that; any other becomes a number only under a key that is not protected, every decimal there does, and it stays otherwise |
| `Coerce.ProtectedExactly` | internal/render/coerce.go:131-145 | the protected keys spelled out: id, host, an end in _id, or one of four words anywhere, in any letter case |
| `Coerce.CoercedTwice` | internal/render/coerce.go:42-73 | coercing twice is coercing once |
| `Coerce.IsArrayField` | internal/render/coerce.go:75-94 | decides whether one of the patterns matches |
| `Coerce.ArrayFieldsAre` | internal/render/coerce.go:20-28 | the paths that are lists, spelled out |
| `Coerce.SplitCSV` | internal/render/coerce.go:96-111 | the trimmed parts that are not empty, in order |
| `Coerce.ItemsAreItems` | internal/render/coerce.go:96-111 | items are trimmed, not empty and without commas |
| `Coerce.ItemsRoundTrip` | internal/render/coerce.go:96-111 | items joined by commas are read back as they were |
| `Coerce.IsPlainInt` | internal/render/coerce.go:146-168 | decides canonical decimals |
| `Coerce.IntegersPrintBack` | internal/render/coerce.go:113-129 | an integer result fits 64 bits and prints as the string it came from, but for minus zero |
| `Coerce.IntegersAreRecognised` | internal/render/coerce.go:113-129 | the decimal of every 64-bit integer becomes that integer, unless the key is protected |
| `Credentials.CredVarName` | internal/render/model.go:137-145 | the parts sanitized and joined |
| `Credentials.CredVarBytes` | internal/render/model.go:137-155 | the variable byte by byte: GB_ and the model and path with dots between, letters upper case, other bytes than letters and digits as underscores |
| `Credentials.SanitizeVar` | internal/render/model.go:147-155 | upper case, every other byte an underscore |
| `Credentials.PlaceholderIsAReference` | internal/render/model.go:137-145 | for every model and path, escaping leaves the placeholder alone and the variable is never the sentinel |
| `Credentials.PlaceholderExpands` | internal/render/model.go:130-131 | the engine expands the placeholder to its variable |
| `Credentials.CredVarCollides` | internal/render/model.go:137-155 | two credentials share a variable if and only if their dotted names differ in case and punctuation only |
| `Credentials.SubstituteCreds` | internal/render/model.go:117-135 | in place: fails on an empty reference or a taken place, else all placeholders and credentials in order |
| `Credentials.CredentialsAreMarked` | internal/render/model.go:117-135 | each credential's place is taken, by its placeholder if and only if no later one goes through it |
| `Credentials.InlineValueIsKeptExactly` | internal/render/model.go:127-131 | an inline value stays if and only if no credential's path goes through it |
| `Credentials.TheRestIsKept` | internal/render/model.go:120-135 | nothing off the credentials' paths changes |
| `Credentials.ParsedRefs` | internal/labels/parse.go:109-119 | the references read from labels have a path, as substitution needs |
| `Model.ResolveProfile` | internal/render/model.go:187-200 | the named profile, the default one, an empty one without either, or none for an unknown name |
| `Model.ValidateModel` | internal/render/model.go:202-213 | decides by what is at paths: something below storages, and something below databases or anything at archive |
| `Model.BuildWithCreds` | internal/render/model.go:67-115 | document and credentials are those of the specification; the document is made of new objects, no two models share one, and profiles and label trees are not written |
| `Model.FirstOfEachName` | internal/render/model.go:77-113 | the models are those of the first acceptable container of each name, and the credentials exactly theirs in order |
| `Model.BuiltIsConsistent` | internal/render/model.go:77-113 | every model is valid and has the places of its container's credentials |
| `Model.CredsAreOfKeptModels` | internal/render/model.go:97-112 | a credential is returned if and only if a kept container asks for it |
| `Model.ContributionAt` | internal/render/model.go:84-95 | away from credentials a model's value is the merged one, its templates evaluated, then coerced |
| `Acceptance.AcceptedExactly` | internal/render/model.go:77-107 | a container comes to a model if and only if its profile is there, no string of labels or profile with an action fails, every reference is filled in and finds its place free, and there are storages and databases or an archive |
| `Acceptance.InDocumentExactly` | internal/render/model.go:108-115 | a name is in the document if and only if some container that is called so is accepted |
| `Acceptance.DocumentText` | internal/render/model.go:84-95 | a string of a label, or of the profile where no label is in its way, is in the document of the first accepted container of the name: evaluated, then a list or a scalar by its place |
| `Acceptance.EvaluatedFind` | internal/render/merge.go:62-100 | where no string fails, every string with an action becomes what it evaluates to, also in lists, and all else stays |
| `Acceptance.CredsExactly` | internal/render/model.go:117-135 | the credentials are exactly one for each reference of the first accepted container of a name, to be looked up in that very container |
| `Acceptance.MergedSomeExactly` | internal/render/merge.go:33-60 | something is left at a path if and only if the label has something there but the opt-out, or the profile has and no label puts a value at or above it |
| `Acceptance.SubstitutedExactly` | internal/render/model.go:117-135 | substitution succeeds if and only if no reference is empty, nothing is at its place and no earlier one has that place or one below; and what is there then |
| `Acceptance.OwnersExactly` | internal/pipeline/reconcile.go:318-337 | the volumes of a name are looked up in the last container that is called so |
| `Model.OwnerIsTheKeeper` | internal/pipeline/reconcile.go:318-337 | volumes are looked up in the container the model came from if and only if no later container has its name |
| `Model.ModelToContainer` | internal/pipeline/reconcile.go:309-336 | the loop gives each model name the last container that has it |
| `EngineCreds.LookupEnv` | internal/pipeline/reconcile.go:296-304 | the value of the first entry for the variable; what that is, is EngineCreds.LookedUpExactly |
| `EngineCreds.LookedUpExactly` | internal/pipeline/reconcile.go:296-304 | a variable is found with a value if and only if some entry is name=value and no earlier entry begins with name= |
| `EngineCreds.ResolveCreds` | internal/pipeline/reconcile.go:237-294 | the additions for the credentials whose container had answered when they came up, each container inspected until it answers and not again |
| `EngineCreds.EnvVarsExactly` | internal/pipeline/reconcile.go:264-270 | the entries added are exactly variable=value for the credentials of that kind whose client has the variable with that value |
| `EngineCreds.SeenExactly` | internal/pipeline/reconcile.go:251-261 | a container is known by its first answer |
| `EngineCreds.AnsweredExactly` | internal/pipeline/reconcile.go:251-261 | a credential is resolved if and only if its container answered to it or to one before |
| `EngineCreds.AdditionsArePaired` | internal/pipeline/reconcile.go:273-290 | each export reads a read-only mount of its own, distinct, in the secrets directory |
| `EngineCreds.SecretIsSomeones` | internal/pipeline/reconcile.go:273-290 | each secret mount is what backs the path of a credential that asked for it |
| `EngineCreds.SecretIsMounted` | internal/pipeline/reconcile.go:273-290 | a secret with a host source is mounted and exported under its name |
| `EngineCreds.SecretIsTheClientsExactly` | internal/pipeline/reconcile.go:273-290 | the exported path names the client's secret if and only if the client has a bind mount of that source at that very place; for a clean path, if the mount that was found is a bind mount there |
| `EngineCreds.SecretsAreClean` | internal/pipeline/reconcile.go:273-290 | the secrets are files next to each other in the secrets directory |
| `EngineCreds.SentinelIsSet` | internal/pipeline/reconcile.go:195-207 | after escaping, the engine's environment expands the sentinel to a dollar, whatever else is in it |
| `EngineCreds.ClientValueArrives` | internal/pipeline/reconcile.go:265-271 | a credential from a client variable has in the engine what stands behind the first name= of the client, if no other credential has its variable |
| `EngineCreds.ExportsAreNamed` | internal/pipeline/reconcile.go:273-290 | every export has a name the shell takes |
| `Wrapper.WrapperRuns` | internal/pipeline/manage.go:193-215 | run by the shell, the wrapper ends in the base command with exactly its arguments, and each secret has its text, less the newlines at its end, in its variable; it ends in no program if and only if there is no base command |
| `EngineEnvironment.EngineStarts` | internal/pipeline/manage.go:193-215 | whatever the credentials, gobackup is started with the arguments of the base command and the variables of the container with the secrets on top, or with secrets and no base command nothing is |
| `EngineEnvironment.SentinelStays` | internal/pipeline/reconcile.go:195-207 | no export touches the sentinel |
| `EngineEnvironment.ClientSecretArrives` | internal/pipeline/reconcile.go:273-290 | the variable of a secret holds the text of the client's file, if the client has a bind mount at that very place and no other secret has its variable |
| `Pipeline.BuiltCredsAreMade` | internal/render/model.go:117-145 | every credential of a built config has a variable made for its model and path |
| `Pipeline.RenderPass` | internal/pipeline/reconcile.go:125-167 | from the sources and the containers that answered: the document is built, its paths rewritten and its strings escaped in place, on objects of its own; whether anything was escaped; and the mounts are those for exactly the models whose looked-up container answered; by the places of the document, which names it has and which targets are mounted |
| `Pipeline.AnswersExactly` | internal/pipeline/reconcile.go:361-432 | a model has the answer of the last container that is called so, if that answered |
| `Pipeline.EngineReadsTheIncludes` | internal/pipeline/reconcile.go:137-172 | of the models and mounts of a pass: an include that is written is read as it is written if and only if each dollar in it is literally meant and harmless, and a clean one then has the tree of the client if and only if each mount in it can be shared and is asked for |
| `Pipeline.FileIsReadAsMeantExactly` | internal/pipeline/reconcile.go:151-172 | of models without a harmful dollar, the file that a pass writes is read as it is meant in every environment with the sentinel if and only if volume discovery writes no include or exclude with one |
| `Pipeline.EngineReadsTheDocument` | internal/pipeline/reconcile.go:151-207 | whatever the sources, and whatever was in the engine's environment, the file of a document without harm is read as it is meant in the environment that the pass makes |
| `Pipeline.EngineReadsTheCredential` | internal/pipeline/reconcile.go:191-207 | the placeholder of a credential means, in the engine, what stands behind the first name= of the client |
| `Pipeline.EngineReadsTheSecret` | internal/pipeline/reconcile.go:191-207 | a secret file's placeholder means, in the engine, the text of the client's file |
| `Pipeline.PassMountsAreManaged` | internal/pipeline/reconcile.go:189-206 | all mounts a pass adds are under the two managed directories, whether or not keys collide, as the settling theorems require |
| `Pipeline.AnsweredAreSome` | internal/pipeline/reconcile.go:237-294 | the credentials whose containers had answered are among those that building returned, as the theorems on credentials require |
| `EnginePass.CollectExtras` | internal/pipeline/reconcile.go:188-206 | all that a pass adds: volumes, then secrets; the sentinel if anything was escaped, then the credentials; the exports |
| `EnginePass.PassGivesTheEngine` | internal/pipeline/reconcile.go:188-222 | a pass that succeeds leaves an engine with the value of every credential as the clients have it, with the sentinel if anything was escaped, and with exactly the volumes and secrets of this pass |
| `EnginePass.VariablesExactly` | internal/pipeline/reconcile.go:191-206 | no variable is added but the sentinel, if anything was escaped, and those of the credentials |
| `EnginePass.SecretExactly` | internal/pipeline/reconcile.go:272-291 | a secret is mounted from the innermost mount of the client around its path, if that has a source, read-only and to a place of its own |

## Left out

- Docker's API, its event stream, file watching, the HTTP API, settings from the environment, status and logging: plumbing.
- YAML and JSON encoding, loading profiles, and the form of template text: library code. The config file is its keys and values, in order, with the encoder's text between them; that the encoder quotes some values, and escapes characters in quotes, is not modelled.
- Durations: the timer may expire at any moment once armed, and the five seconds after a failure are not told apart from the debounce.
- The `recreated` flag that only decides a log line, the order of networks, and the options of bind mounts, which a replacement does not carry over.
- Letter case outside ASCII, and spaces outside ASCII in trimming.
- How `sort.Strings` sorts: `Text.Sort` is an insertion sort.
- The meaning of excludes, which are patterns: they are only written.
- Symbolic links, and mounts that change while a pass runs.
- The daemon forgetting what it was told, in a power loss.
- A container name that is a prefix of an ID: inspection finds by exact name or exact ID.
- Collecting.CollectMounts: when two archive targets share a key, of the mounts of that key one is served; which one is the first in the order of the models.
- VolumePhase.RewriteModels: all models are read before any is written, where the program writes the archives before it reads the databases; the two write under different keys.
- PathMeaning.SameDataExactly: for model names that can be one directory, and paths that do not climb; those that do are `PathLimits.SameDataOrClimbing`. What is in a tmpfs cannot be shared.
- Runs.RunKeeps: if no save before a power loss was answered late; `OldRecords.RunSound` has the runs whose late records were carried out, `Runs.SaveIsSafeExactly` that any other is fatal.
- Wrapper.WrapperRuns: of a shell, the commands export, exec and cat.
- Convergence.RecoveryEnds: while the disturbances last nobody else takes the engine's name; if someone does, the passes leave everything alone (`ForeignIsLeftAlone`).
- Convergence.PassSettles: for a first engine with a base command; `SettlesAfterReplacement` has the exact condition for one replacement.
- EngineSpec.CheckRecreate: image, networks and labels of the settings are not compared, as in the program: they count at the next replacement.
- Supervisor.Host.SaveRecord: the record is written in one step; that the file steps come to this is `RecordFile.SaveIsTheWrite`.
- AtomicFile.FileWriter.Apply: whether the bytes parse is a parameter.
- Paths.SetPath: one method for setPath and setLeaf, which are the same code; the steps of the loop body are methods of their own.
- Labels.Parse: the tree is that of the order the labels came in; without clashes it is that of any order (`SameCredentials`).
- Model.BuildWithCreds: that profiles and label trees stay as they are is its empty modifies clause.
