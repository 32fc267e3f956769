# Version migration sequencer

This project models the migration sequencer of the framework's version service
(`backend/src/service/version.js`). On each pass the service goes through
every registered module in order. For each module it reads the version the
module's package declares, `fileVersionNew`. It then looks up the version the
ledger already holds, `fileVersionOld`. There are two ledgers:

- the global `aVersion` table, used when the scene is empty (update);
- the per-subdomain `aVersionInit` table, used in the `init` scene.

A module whose ledger is behind runs its steps `fileVersionOld + 1 ..
fileVersionNew` one at a time through the module's `version/update` or
`version/init` handler. Each step is recorded after it returns, and only when
its version is above 0. A recorded version above the declared one is a
downgrade: the pass stops with error 1001 naming the module. A declared
version of -1 means "always": one step with version -1 runs on every pass and
is never recorded. The `test` scene only calls each module's `version/test`
handler. The `init` and `test` scenes end with a call to the `version/after`
hook.

The service's own module, `a-version`, is migrated like any other. Its
`version/update` handler is the service's `update` method, and step 2 of that
method creates the `aVersionInit` table. So a pass on the global track creates
that table exactly when it runs the service's own step 2 and the step succeeds.

The project has five files:

- `types.dfy`, module `Types`: the values. These are the registry's view of a
  module, the ledger rows, the remote calls, the outcome of a pass and `World`,
  a snapshot of everything a pass can change.
- `ledger.dfy`, module `Ledger`: the "current version" queries. Each one is
  the highest version among the matching rows, or 0 when no row matches.
- `sequencer.dfy`, module `Sequencer`: one pure function per method of the
  service. Each gives the state after the method and whether it failed:
  - `Step` is `__updateModule2` together with `updateModule` or `initModule`;
  - `RunSteps` and `UpdateModuleSpec` are `__updateModule`;
  - `TestModuleSpec` is `__testModule` together with `testModule`;
  - `CheckModuleSpec` is `__checkModule`;
  - `CheckModulesSpec` and `CheckSpec` are `check`.
- `service.dfy`, module `VersionService`: the service itself, imperative.
  - Class `Version` holds the ledger tables and the calls made so far.
  - Class `RunOptions` is the options bag. The methods update its `result`,
    `module` and `version` fields in place.
  - `Check`, `CheckModule`, `UpdateModuleSteps`, `UpdateModule2` and
    `TestModuleWith` are proved to leave exactly the state their `Sequencer`
    function describes.
  - The handlers they dispatch to (`UpdateModule`, `InitModule`,
    `TestModule`, `PerformAction`, `Update`) state their effect on the
    tables and the calls directly.
- `properties.dfy`, module `Properties`: what a pass guarantees, proved about
  the `Sequencer` functions.

`ctx.performAction` is modelled as a call recorded in the `trace` field. A
call fails exactly when it is in the set `failing`. The route table that
`findByPath` consults is the set `routes`. Both are parameters of the model.

## Model

| member | source | states |
|---|---|---|
| VersionService.Version.Check | backend/src/service/version.js:67-100 | The pass leaves exactly the state and outcome of `CheckSpec`: `aVersion` is ensured in the empty scene; the modules run in order and the pass stops at the first failure; the `after` hook is called in the `init` and `test` scenes |
| VersionService.Version.CheckModule | backend/src/service/version.js:194-241 | One module's reconciliation leaves exactly the state and outcome of `CheckModuleSpec` |
| VersionService.Version.UpdateModuleSteps | backend/src/service/version.js:270-291 | Running the versions leaves exactly the state of `UpdateModuleSpec`: the sentinel runs once, otherwise `fileVersionOld + 1 .. fileVersionNew` runs in order until the first failure; `result` is logged only on success |
| VersionService.Version.CollectVersions | backend/src/service/version.js:277-280 | The counting loop returns exactly `Steps(fileVersionOld, fileVersionNew)`: the versions `fileVersionOld + 1 .. fileVersionNew`, ascending |
| VersionService.Version.UpdateModule2 | backend/src/service/version.js:243-267 | One step leaves the state of `Step`: the empty scene goes to `updateModule`; any other scene sets `options.module` and `options.version` and goes to `initModule` |
| VersionService.Version.UpdateModule | backend/src/service/version.js:111-130 | The update handler is called once with the version; the step fails exactly when that call fails; a global row is appended only after the call succeeds, and only for a version above 0; `aVersionInit` is created exactly when the call is the service's own successful step 2 |
| VersionService.Version.InitModule | backend/src/service/version.js:133-154 | The init handler is called only when its route exists, and the step fails only when that call fails; otherwise a subdomain row is appended for a version above 0, whether or not the route exists |
| VersionService.Version.TestModuleWith | backend/src/service/version.js:294-303 | Sets `options.module` and `options.version`, then leaves the state of `TestModuleSpec` |
| VersionService.Version.TestModule | backend/src/service/version.js:157-169 | The test handler is called only when its route exists; the step fails exactly when that call fails |
| VersionService.Version.Update | backend/src/service/version.js:172-191 | The service's own step 2 creates `aVersionInit`, and no step drops it; `UpdateModule` reaches it when the module migrated is the service's own |
| VersionService.Version.GetModule | backend/src/service/version.js:306-308 | The registry entry returned for a name is the module with that relative name |
| VersionService.Version.PerformAction | backend/src/service/version.js:114-120 | A remote call is recorded, and it fails exactly when it is a failing call |
| Ledger.MaxOrZero | backend/src/service/version.js:213-218 | The result is an element of the list that is at least every element, or 0 for the empty list |
| Ledger.VersionsOf | backend/src/service/version.js:214-218 | A version is listed exactly when some global row for the module records it |
| Ledger.InitVersionsOf | backend/src/service/version.js:219-223 | A version is listed exactly when some init row for the subdomain and module records it |
| Ledger.CurrentVersion | backend/src/service/version.js:214-218 | `fileVersionOld` on the global track is the highest version among the module's rows, and 0 when there is none |
| Ledger.CurrentInitVersion | backend/src/service/version.js:219-223 | `fileVersionOld` on the init track is the highest version among the rows of exactly that subdomain and module, and 0 when there is none |
| Ledger.CurrentVersionIgnoresOtherRows | backend/src/service/version.js:214-218 | Rows of other modules do not change a module's global version |
| Ledger.CurrentInitVersionIgnoresOtherRows | backend/src/service/version.js:219-223 | Rows of another subdomain or module do not change an init version |
| Ledger.CurrentVersionAfterAppend | backend/src/service/version.js:123-128 | Appending rows up to `top`, one of them exactly `top`, makes `top` the current version |
| Ledger.CurrentInitVersionAfterAppend | backend/src/service/version.js:146-152 | The init-track analogue of CurrentVersionAfterAppend |
| Sequencer.Steps | backend/src/service/version.js:277-280 | The range has `fileVersionNew - fileVersionOld` elements (none when not behind), and element `k` is `fileVersionOld + 1 + k` |
| Properties.FirstFailure | backend/src/service/version.js:283-285 | The index of the first step whose call fails: every earlier step succeeds, and the step at that index fails |
| Properties.CallsOf | backend/src/service/version.js:283-285 | The calls a step sequence makes never include the post-pass hook |
| Properties.VersionRowsFor | backend/src/service/version.js:123-128 | Every global row the steps write is the module's own and has a version above 0 |
| Properties.InitRowsFor | backend/src/service/version.js:146-152 | Every init row the steps write is for the subdomain and module, with a version above 0 |
| Properties.RowsStayBelow | backend/src/service/version.js:123-128 | Steps no higher than `top` write rows no higher than `top` |
| Properties.RowRecorded | backend/src/service/version.js:123-128 | A step with a version above 0 writes its row |
| Properties.InitRowsStayBelow | backend/src/service/version.js:146-152 | The init-track analogue of RowsStayBelow |
| Properties.InitRowRecorded | backend/src/service/version.js:146-152 | The init-track analogue of RowRecorded |
| Properties.RangeRowsAreExact | backend/src/service/version.js:277-285 | From a start of at least 0, a range writes exactly one row per version, ascending |
| Properties.RangeInitRowsAreExact | backend/src/service/version.js:277-285 | The init-track analogue of RangeRowsAreExact |
| Properties.AppendRangeRows | backend/src/service/version.js:123-128 | Appending a range's rows adds exactly `n` rows, for the versions `lo + 1 .. lo + n` in order |
| Properties.AppendRangeInitRows | backend/src/service/version.js:146-152 | The init-track analogue of AppendRangeRows |
| Properties.CurrentVersionAfterRange | backend/src/service/version.js:213-218 | A module at `lo` whose range `lo + 1 .. lo + n` is recorded is at `lo + n`, when the range ends above 0 |
| Properties.CurrentInitVersionAfterRange | backend/src/service/version.js:219-223 | The init-track analogue of CurrentVersionAfterRange |
| Properties.UpdateTrackCalls | backend/src/service/version.js:114-120 | On the global track every step makes exactly one call, to the update handler with its own version |
| Properties.InitTrackCalls | backend/src/service/version.js:136-143 | On the init track every step calls the init handler when the route exists; without the route no step calls and none fails |
| Properties.StepTrace | backend/src/service/version.js:243-267 | A step makes its own call, if any, and no other |
| Properties.StepOutcome | backend/src/service/version.js:243-267 | A step fails exactly when its call fails, with that call; it changes neither `result` nor `aVersion`'s existence, and creates `aVersionInit` exactly when its call is the service's own successful step 2 |
| Properties.StepVersionRows | backend/src/service/version.js:122-128 | Only a successful step above 0 in the empty scene writes a global row, and it writes only that row |
| Properties.StepInitRows | backend/src/service/version.js:145-152 | Only a successful step above 0 in a nonempty scene writes an init row, and it writes only that row |
| Properties.RunStepsTrace | backend/src/service/version.js:283-285 | The loop makes the calls of the steps up to and including the first failing one, in order, and no others |
| Properties.UpdateStepsRows | backend/src/service/version.js:283-285 | In the empty scene the loop writes the global rows of the steps before the first failure, and no others |
| Properties.InitStepsKeepVersionRows | backend/src/service/version.js:283-285 | In a nonempty scene the loop writes no global row |
| Properties.RunStepsVersionRows | backend/src/service/version.js:283-285 | The loop writes global rows only in the empty scene: those of the steps before the first failure |
| Properties.InitStepsRows | backend/src/service/version.js:283-285 | In a nonempty scene the loop writes the subdomain rows of the steps before the first failure, and no others |
| Properties.UpdateStepsKeepInitRows | backend/src/service/version.js:283-285 | In the empty scene the loop writes no init row |
| Properties.RunStepsInitRows | backend/src/service/version.js:283-285 | The loop writes init rows only in a nonempty scene: those of the steps before the first failure |
| Properties.RunStepsOutcome | backend/src/service/version.js:283-285 | The loop fails exactly when a call fails, with the first failing call, and leaves `result` and `aVersion`'s existence unchanged |
| Properties.RunStepsInitTable | backend/src/service/version.js:283-285 | The loop creates `aVersionInit` exactly when the calls of the steps that ran include the service's own step 2 and that call succeeded |
| Properties.StepsSplit | backend/src/service/version.js:277-280 | A range splits at any point into the range below that point and the range above it |
| Properties.FirstFailureRange | backend/src/service/version.js:277-285 | The steps of a range succeed in ascending order up to `from + n`, and if the range stops early, step `from + 1 + n` fails |
| Properties.RangeRun | backend/src/service/version.js:270-291 | `__updateModule` is its loop followed by the `result` log, and the log changes no call, no row and no table's existence |
| Properties.RangeVersionRows | backend/src/service/version.js:270-291 | On the global track a range writes the rows of the versions before the first failing step, and no init row |
| Properties.RangeInitRows | backend/src/service/version.js:270-291 | On the init track a range writes the subdomain rows of the versions before the first failing step, and no global row |
| Properties.RangeOutcome | backend/src/service/version.js:270-291 | A range succeeds exactly when every step does, and otherwise fails with the first failing step's call; `result` is logged as `{fileVersionOld, fileVersionNew}` only on success; `aVersion`'s existence does not change |
| Properties.UpdateCallsCreateInitTable | backend/src/service/version.js:114-120 | Consecutive update calls of one module, successful up to the first failure, include the service's own successful step 2 exactly when the module is the service's own and version 2 comes before the failure |
| Properties.RangeCallsCreateInitTable | backend/src/service/version.js:277-285 | On the global track the calls of a range's steps that ran include the service's own successful step 2 exactly when the module is the service's own and step 2 is among the steps that succeeded |
| Properties.InitCallsKeepInitTable | backend/src/service/version.js:136-143 | In a nonempty scene the steps call only init handlers, so they never run the service's own step 2 |
| Properties.RangeInitTable | backend/src/service/version.js:270-291 | A range creates `aVersionInit` exactly when it runs on the global track for the service's own module and step 2 is among the steps that succeeded |
| Properties.RangeUpdateTrace | backend/src/service/version.js:283-285 | On the global track the calls are the update handler for `from + 1, from + 2, ..` for exactly the steps that ran |
| Properties.RangeInitTrace | backend/src/service/version.js:136-143 | On the init track, with the route present, the calls are the init handler for `from + 1, from + 2, ..` for exactly the steps that ran |
| Properties.RangeWithoutInitRoute | backend/src/service/version.js:136-152 | On the init track, without the route, a range makes no call and every step succeeds |
| Properties.UpdateRangeCalls | backend/src/service/version.js:277-285 | On the global track the update handler is called for exactly `from + 1 ..`, ascending and each once, up to and including the first failing call; every earlier call succeeded |
| Properties.InitRangeCalls | backend/src/service/version.js:277-285 | The init-track analogue of UpdateRangeCalls: with no init route there is no call and no failure |
| Properties.LedgerAfterRange | backend/src/service/version.js:213-224 | Recording the range `from + 1 .. from + n` on the track the scene selects moves `fileVersionOld` from `from` to `from + n` |
| Properties.RangeReachesTarget | backend/src/service/version.js:213-231 | A successful range from the current version leaves the target as the current version |
| Properties.RangeResume | backend/src/service/version.js:283-285 | A range that fails at step `v` fails with that step's call, and leaves `v - 1` as the current version |
| Properties.RerunRunsRest | backend/src/service/version.js:277-280 | A rerun from `v - 1` runs exactly the part of the original range from `v` on |
| Properties.BehindTargetRunsUpdate | backend/src/service/version.js:229-230 | A module behind a positive target runs `__updateModule` from its current version to the target |
| Properties.UpdateTrackRunsExactRange | backend/src/service/version.js:205-231 | Global track, end to end: exactly the versions `fileVersionOld + 1 ..` run, ascending and each once, up to the first failure; `result` is logged exactly when the target is reached |
| Properties.InitTrackRunsExactRange | backend/src/service/version.js:205-231 | Init track, end to end: the same, with the init handler; a module without an init route makes no call and succeeds |
| Properties.DowngradeIsRejected | backend/src/service/version.js:227-228 | A recorded version above the target fails with error 1001 naming the module; nothing is called or written and `result` is untouched |
| Properties.UpToDateIsNoop | backend/src/service/version.js:226-231 | A module at its target is left alone: no call, no row, no `result` entry |
| Properties.SentinelRunsOnceAndIsNeverRecorded | backend/src/service/version.js:209-210 | With target -1, exactly one step with version -1 runs on every pass, whatever the ledgers hold; no row is written; success logs `{-1, -1}` |
| Properties.SceneDispatch | backend/src/service/version.js:199-239 | The `test` scene never migrates and only calls the test handler with the target (0 when none is declared); a module with no target, or in another scene, is left alone |
| Properties.CompletedRunReachesTarget | backend/src/service/version.js:213-231 | After a module's successful run its current version is its target, so a later pass has nothing to do |
| Properties.ResumeAfterFailure | backend/src/service/version.js:212-231 | A module that fails while behind fails at some step `v` above its old version, and its current version becomes `v - 1` |
| Properties.SelfMigrationCreatesInitTable | backend/src/service/version.js:178-189 | A successful global-track run of the service's own module from below version 2 to at least 2 leaves `aVersionInit` created |
| Properties.StepsJoin | backend/src/service/version.js:277-280 | Two adjacent ranges together are the range from the start of the first to the end of the second |
| Properties.RangeRowsVersions | backend/src/service/version.js:123-128 | The global rows a range from at least 0 writes record exactly the range's versions, in order |
| Properties.RangeInitRowsVersions | backend/src/service/version.js:146-152 | The init-track analogue of RangeRowsVersions |
| Properties.GaplessIsNatural | backend/src/service/version.js:213-218 | A ledger that records exactly `1 .. currentVersion` for a module is at version 0 or above |
| Properties.InitGaplessIsNatural | backend/src/service/version.js:219-223 | The init-track analogue of GaplessIsNatural |
| Properties.GaplessAfterRange | backend/src/service/version.js:123-128 | Appending the rows of `from + 1 .. from + n` to a ledger that records exactly `1 .. from` leaves one that records exactly `1 .. from + n` |
| Properties.InitGaplessAfterRange | backend/src/service/version.js:146-152 | The init-track analogue of GaplessAfterRange |
| Properties.UpdateKeepsLedgerGapless | backend/src/service/version.js:205-231 | A module whose global rows record exactly the versions `1 .. currentVersion`, once each and in order, still does after its global-track run, whether the run completes, fails part-way, is rejected or has nothing to do |
| Properties.InitKeepsLedgerGapless | backend/src/service/version.js:205-231 | The same for the `init` scene and the rows of the pass's subdomain and the module |
| Properties.AppendedRefl | backend/src/service/version.js:226-231 | A run that changes no call and no row satisfies `Appended` and `OwnRows` |
| Properties.AppendedTransitive | backend/src/service/version.js:86-88 | Two append-only runs in a row are append-only |
| Properties.RunStepsAppends | backend/src/service/version.js:283-285 | The step loop only appends calls and rows, and every row it appends is the module's own |
| Properties.UpdateModuleAppends | backend/src/service/version.js:270-291 | `__updateModule` only appends, and only its module's own rows |
| Properties.CheckModuleAppends | backend/src/service/version.js:194-241 | One module's run only appends, and only its own rows |
| Properties.TracksAreIsolated | backend/src/service/version.js:213-224 | A global-track run changes no init row and no other module's version; an init-track run changes no global row and no other (subdomain, module) version |
| Properties.CheckModulesAppends | backend/src/service/version.js:86-88 | The modules' runs of a pass only append |
| Properties.PassIsAppendOnly | backend/src/service/version.js:67-100 | A pass only appends. Every row is above 0; global rows come only in the empty scene and init rows only in `init`, for its subdomain. `aVersion` exists afterwards exactly when it did or the scene is empty, and `aVersionInit` is created exactly when the pass's calls include the service's own successful step 2. The `after` hook is called at most once, last, and only in `init` or `test`, and always when every module succeeded |
| Properties.FailureStopsPass | backend/src/service/version.js:86-88 | A failing pass stops at the first failing module: every earlier module succeeded and no later module is processed |
| Properties.CheckModulesPrefix | backend/src/service/version.js:86-88 | When the first `j` modules succeed, the pass continues from the state they leave with the modules from `j` on |
| Properties.FailedPassSkipsHook | backend/src/service/version.js:86-98 | When a module fails, `check` ends with exactly that failure and state, and calls no `after` hook |
| Properties.DowngradeFailsPass | backend/src/service/version.js:86-88 | When the modules before module `j` succeed and `j` is recorded above its target, `check` fails with error 1001 naming `j`, in the state the earlier modules left |
| Ledger.VersionsOfAppend | backend/src/service/version.js:214-218 | The versions listed for a module in two concatenated row lists are those of the first list followed by those of the second |
| Ledger.InitVersionsOfAppend | backend/src/service/version.js:219-223 | The init-track analogue of VersionsOfAppend |
| Ledger.VersionsOfOwnRows | backend/src/service/version.js:214-218 | When every row is the module's own, its listed versions are the rows' versions, one per row, in order |
| Ledger.InitVersionsOfOwnRows | backend/src/service/version.js:219-223 | The init-track analogue of VersionsOfOwnRows |

## Left out

- The database bootstrap (`__database`, `databaseInitStartup`, `databaseNameStartup`, version.js:8-65) is left out. It provisions databases through I/O that lies outside the sequencer.
- `after` (version.js:102-108) is left out. It hands the post-pass hook to the role subsystem, which is not part of this model; the model records only the hook call that `check` makes.
- The table DDL, the `show tables like` probe, row ids and timestamps are left out. Each table's existence is a boolean, and a row keeps only its module, subdomain and version.
- Storage errors are left out: every query and insert is taken to succeed. A remote call fails exactly when it is in `failing`, and the route table is the set `routes`. Both stand for `ctx.performAction` and `findByPath`, whose internals are not part of this model.
- The service calls its own handlers through `ctx.performAction` (`version/updateModule`, `version/initModule`, `version/testModule`). These calls are modelled as direct method calls. Only the calls that reach a module's handlers, and the `after` hook, are recorded.
- The options bag keeps only scene, subdomain, `result`, `module` and `version`. The subdomain is always a string. The code defaults a missing subdomain to `''` only for the hook (`options.subdomain || ''`, version.js:93).
- A missing subdomain in the ledger is left out. The init-track query and insert pass `options.subdomain` unchanged (version.js:148, 220), so a pass without a subdomain writes rows with a NULL subdomain that `subdomain=?` never matches. Such a pass re-runs `1 .. fileVersionNew` every time. The model keys the init ledger on the subdomain string, so a rerun resumes where the last pass stopped.
- The database collation is left out. The databases are created with `utf8mb4_general_ci` (version.js:35, 57), so the ledger lookups ignore case and trailing spaces in module names and subdomains. `CurrentVersion`, `CurrentInitVersion` and `TracksAreIsolated` use exact string equality.
- Only `update`, the service's own update handler, is modelled among the service's own handlers. Any init or test handler of `a-version` is outside version.js and is not part of this model; such calls are recorded like any other module's. Whether `CREATE TABLE aVersionInit` itself succeeds is part of whether that call fails, which `failing` decides.
- `package.eggBornModule.fileVersion` is an optional integer, and a missing one counts as 0. Non-integer values are left out, and so are JavaScript's 2^53 limit on integers and concurrent passes.
- VersionService.Version.GetModule: relies on `RegistryValid`, which says every module is registered under its own relative name (`info.relativeName`). The host registry guarantees this, but version.js does not check it.
- ResumeAfterFailure: requires the old version to be at least 0. Steps at 0 or below write no row, so from a negative recorded version the ledger does not move one row per step.
- RangeResume: has the same restriction, `0 <= fileVersionOld`, for the same reason.
- A module that goes from a positive version back to the -1 sentinel runs the sentinel on every pass; the model does exactly what the code does, and no downgrade check applies to it.
