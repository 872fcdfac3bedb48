# xbeach-mi in Dafny

xbeach-mi runs several instances of one XBeach coastal model side by side and
lets exactly one of them, the *running instance*, advance the simulation. A
JSON configuration lists the instances and a *scenario*: the times at which the
running instance changes. When it changes, the orchestrator does four things:

- it opens a *transition* that records the outgoing instance's time and bed level `zb`;
- it synchronizes the incoming instance's clock;
- it copies the configured *exchange* variables from the outgoing instance to the incoming one;
- only then does it switch.

Until the running time reaches the recorded time, every update re-imposes the
recorded bed level on the new running instance. Each instance lives in its own
worker process, which serves BMI calls from a command queue.

The project models that orchestrator and the helpers around it. Each module
below corresponds to one part of the source.

- `Engines` (engine.dfy): one engine's state (time, named variables, finalized flag).
  - The BMI calls the orchestrator sends, and what each returns or raises.
  - The engine's own numerics (`update`, `finalize`) are parameters, and either may raise.
- `Worker` (worker.dfy): the worker process's listening loop.
  - `Serve` is a loop, proved against a recursive specification.
  - That specification is related to a plain "run every command in order" reference.
- `Provision` (provision.dfy): the pure parts of `load_configfile`.
  - The sorted, de-duplicated set of instances and the initial running instance.
  - The hidden working directories and the copy-ignore predicate.
  - The `defuse = 0` line written in front of every rendered params file.
- `Orchestration` (orchestration.dfy): the orchestrator as a state machine.
  - Each operation is a function from the state before to the state after, or to the `ValueError` it raises.
  - Lemmas about what each operation does to every engine.
- `Model` (model.dfy): the class `XBeachMI`.
  - Its fields are the running instance, the scenario cursor, the open transition and the engines.
  - Its methods change those fields call by call, and each is proved to reach the state `Orchestration` prescribes.
  - The step `sync_time` sends is a parameter of every switching operation (`Orchestration.SyncRule`): `AsWritten` is the program as it runs, `Intended` the corrected step (see Findings).
- `Parsers` (parsers.dfy): `ConfigParser.parse_config_value`, and `parse_config_file` over a sequence of lines.
- `Progress` (progress.dfy): the class `ProgressIndicator`.
  - The wall clock is a parameter (`now`), and simulated time is an exact real.
- `Mkmap` (mkmap.dfy): the point-in-polygon test `ipon` and the gather `grmap`.
  - Both run over arrays, and each is proved against a function on values.
- `Cmd` (cmd.dfy): `logleveltonumber`.
- `Wrappers` (wrappers.dfy): `Option`, `Result` and `Outcome`.

All numbers are unbounded integers or exact reals.

## Model

| member | source | states |
|---|---|---|
| Engines.Invoke | xbeachmi/model.py:492 | one BMI call on one engine; `Worker.HandleEffect` states each call's effect and reply, and `Worker.Handle` turns a raised call into `None` |
| Worker.Handle | xbeachmi/model.py:491-499 | a command that raises is answered with `None` and leaves the engine unchanged; otherwise the reply is the call's result |
| Worker.HandleEffect | xbeachmi/model.py:491-499 | per BMI call: the time query and `get_var` change nothing and return the time or the variable (or `None`); `set_var`, `update` and `finalize` answer `None` and assign, advance or close the engine |
| Worker.FailedRepliesNone | xbeachmi/model.py:496-499 | a failed command puts `None` on the outbound queue and leaves the engine as it was |
| Worker.ServeSpec | xbeachmi/model.py:483-505 | the loop never takes more entries than the queue holds |
| Worker.Serve | xbeachmi/model.py:483-505 | the listening loop returns exactly the engine, replies and number of entries taken that the front-to-back specification gives |
| Worker.ServeRunsInOrder | xbeachmi/model.py:483-505 | with no `finalize` before the last entry, the whole queue is taken and the replies are those of running its commands in order, one reply per command, falsy entries skipped |
| Worker.StopsAtFirstFinalize | xbeachmi/model.py:501-505 | the loop stops right after the first `finalize`, whether or not it succeeded: nothing after it is taken or answered |
| Worker.AnswersInOrder | xbeachmi/model.py:483-505 | for every queue, the replies are those of running, in order, the commands up to the first `finalize` (or all of them) |
| Worker.RunFront | xbeachmi/model.py:483-499 | running a command list is running its first command and then the rest |
| Worker.NoFirstFinalize | xbeachmi/model.py:501-505 | a queue with no first `finalize` has no `finalize` at all |
| Provision.SortedUnique | xbeachmi/model.py:284 | `np.unique`: the result is strictly sorted and holds exactly the names of the input |
| Provision.Provisioned | xbeachmi/model.py:279-284 | the instances `load_configfile` provisions; `ProvisionedIsSortedListing` and `ScenarioProvisioned` state what they are |
| Provision.Insert | xbeachmi/model.py:284 | inserting a name keeps the list strictly sorted and adds exactly that name |
| Provision.ScenarioNames | xbeachmi/model.py:283 | the second field of every scenario entry, in order |
| Provision.SortedListingIsUnique | xbeachmi/model.py:284 | two strictly sorted lists with the same names are equal, so the provisioned list is determined by its names |
| Provision.ProvisionedIsSortedListing | xbeachmi/model.py:279-284 | the provisioned instances are the one strictly sorted list of the listed instances together with the scenario names |
| Provision.ScenarioProvisioned | xbeachmi/model.py:282-284 | every instance that a scenario entry names is provisioned |
| Provision.InitialIsLeast | xbeachmi/model.py:290-296 | with no instance given, the initial running instance is the least provisioned name |
| Provision.FirstNamed | xbeachmi/model.py:294-296 | the first non-empty name; stated by `FirstNamedIsFirst` and `FirstNamedNone` |
| Provision.InitialInstance | xbeachmi/model.py:294-296 | the given instance, or else the first provisioned one; stated by `InitialIsLeast` |
| Provision.FirstNamedIsFirst | xbeachmi/model.py:294-296 | `if not self.instance` takes the first non-empty name in loop order |
| Provision.FirstNamedNone | xbeachmi/model.py:294-296 | when all names are empty, no instance is chosen |
| Provision.StrLessIrreflexive | xbeachmi/model.py:284 | the string order that `np.unique` sorts by is irreflexive |
| Provision.StrLessTransitive | xbeachmi/model.py:284 | that order is transitive |
| Provision.StrLessTotal | xbeachmi/model.py:284 | that order is total on distinct strings |
| Provision.Subdir | xbeachmi/model.py:306 | the hidden working directory is the instance name behind a dot |
| Provision.SubdirInjective | xbeachmi/model.py:306 | distinct instances get distinct working directories |
| Provision.CopyIgnored | xbeachmi/model.py:310-314 | the ignore test on one file name; `IgnoredOf` and `WhatIsIgnored` state what it lets through |
| Provision.IgnoredOf | xbeachmi/model.py:309-314 | the files left out of the copy are exactly the copied files that start with `.` or end in `.nc` or `.log` |
| Provision.WhatIsIgnored | xbeachmi/model.py:306-314 | another instance's hidden directory and netCDF and log files are not copied; `params.txt` is |
| Provision.ParamsText | xbeachmi/model.py:343-344 | the written params file is `defuse = 0` and a newline, followed by the rendered template |
| Provision.SplitLinesRoundTrip | xbeachmi/model.py:343-344 | splitting the text into lines and joining them back gives the text |
| Provision.ParamsLines | xbeachmi/model.py:343-344 | the lines of the written params file are the `defuse = 0` line followed by the rendered template's lines |
| Provision.DefuseLineParses | xbeachmi/model.py:343 | the prefix line parses to the key `defuse` with the integer value 0 |
| Provision.DefuseDisabled | xbeachmi/model.py:343-344 | the parsed params file sets `defuse` to 0 unless the rendered template sets it again |
| Orchestration.Call | xbeachmi/model.py:623-654 | a call changes only the addressed engine, which is the running instance when no instance is named; the set of instances and the orchestrator's own fields stay as they were |
| Orchestration.Route | xbeachmi/model.py:646-647 | the engine a call addresses; stated by `CallDefaultsToRunning` |
| Orchestration.TimeOf | xbeachmi/model.py:519-520 | the time the addressed engine reports; `QueriesChangeNothing` states that the query answers it and changes nothing |
| Orchestration.CallDefaultsToRunning | xbeachmi/model.py:646-647 | a call naming no instance is a call to the running instance |
| Orchestration.QueriesChangeNothing | xbeachmi/model.py:519-532 | asking for the time or a variable changes no state and answers the engine's time or variable |
| Orchestration.SetOnOther | xbeachmi/model.py:623-654 | a call to another instance changes that instance's engine only |
| Orchestration.SyncTimeAsWritten | xbeachmi/model.py:391-405 | as written, `sync_time` advances the incoming instance by `t_in - (t_out - transition_time)`, whatever the engine does with that step, and changes no other engine and none of the orchestrator's own fields |
| Orchestration.SyncTimeAsWrittenMisaligns | xbeachmi/model.py:403-405 | as written, with a clock that moves by exactly `dt`, the incoming instance ends up at `2 t_in - t_out + transition_time`; it is aligned afterwards only if it already was |
| Orchestration.SyncTimeExample | xbeachmi/model.py:403-405 | running instance at 1000, incoming at 0, transition time 100: as written the incoming clock goes to -900; corrected it goes to 900 |
| Orchestration.SyncTime | xbeachmi/model.py:391-405 | corrected `sync_time`: the incoming instance is advanced by `(t_out - transition_time) - t_in`; no other engine and none of the orchestrator's own fields change |
| Orchestration.Sync | xbeachmi/model.py:384 | the synchronization a switch performs, as written or corrected by the rule, keeps the instances and the orchestrator's own fields |
| Orchestration.SyncTimeAligns | xbeachmi/model.py:391-405 | corrected, with a clock that moves by exactly `dt`, the incoming instance ends exactly `transition_time` behind the running one and no other engine changes |
| Orchestration.Exchange | xbeachmi/model.py:408-423 | the exchange keeps the instances and the orchestrator's fields |
| Orchestration.CopyVarsEffect | xbeachmi/model.py:420-423 | after the exchange, each exchanged variable that the incoming engine knows holds the outgoing value; every other variable, the time and the finalized flag are kept |
| Orchestration.ExchangeCopies | xbeachmi/model.py:420-423 | `exchange_data` changes the incoming engine only, copying the variables from the running one in configuration order |
| Orchestration.SetInstance | xbeachmi/model.py:365-388 | under either sync rule, `set_instance` fails exactly when the name is not provisioned; otherwise the name runs afterwards and the instances and the cursor are kept |
| Orchestration.SetInstanceUnknown | xbeachmi/model.py:375-388 | an unknown name raises `ValueError` and changes nothing |
| Orchestration.SetInstanceSame | xbeachmi/model.py:376 | the running name is a no-op: no transition, no synchronization, no exchange |
| Orchestration.SetInstanceSwitches | xbeachmi/model.py:376-405 | a real switch records the outgoing time and `zb`, advances the incoming instance by the rule's step (`t_in - (t_out - transition_time)` as written, `(t_out - transition_time) - t_in` corrected), copies the exchanged variables from the outgoing instance, leaves every other engine alone, and only then makes the incoming instance run |
| Orchestration.SetInstanceClock | xbeachmi/model.py:376-405 | with a clock that moves by exactly the step, a switch as written leaves the new running instance at `2 t_in - t_out + transition_time`; corrected, at `t_out - transition_time` |
| Orchestration.UpdateInstance | xbeachmi/model.py:347-362 | under either sync rule, `update_instance` keeps the instances and, when it succeeds, leaves a provisioned instance running; its switch is the one `SetInstanceSwitches` describes |
| Orchestration.UpdateInstanceIdle | xbeachmi/model.py:355-356 | with no scenario entry left, nothing changes |
| Orchestration.UpdateInstanceWaits | xbeachmi/model.py:358-360 | before the entry's time, nothing changes |
| Orchestration.UpdateInstanceSwitches | xbeachmi/model.py:358-362 | once the entry's time has come, its instance runs and the cursor moves on by exactly one |
| Orchestration.UpdateInstanceRejects | xbeachmi/model.py:358-362 | an entry naming an unknown instance raises `ValueError` |
| Orchestration.Reimpose | xbeachmi/model.py:603-604 | re-imposing the recorded variables keeps the instances and the orchestrator's fields |
| Orchestration.ReimposeImposes | xbeachmi/model.py:603-604 | the recorded variables are set on the running engine, in order, and on no other |
| Orchestration.Update | xbeachmi/model.py:596-607 | under either sync rule, `update` keeps the instances and, when it succeeds, leaves a provisioned instance running |
| Orchestration.UpdateStopsOnError | xbeachmi/model.py:599 | when `update_instance` raises, `update` raises before the running instance advances |
| Orchestration.UpdateAdvancesRunning | xbeachmi/model.py:599-600 | outside a transition, `update` runs the scenario step and then advances only the running instance |
| Orchestration.UpdateInTransition | xbeachmi/model.py:600-607 | in a transition, after advancing: while the running time is before the transition's time, the recorded variables are set on the running instance; otherwise the transition is closed |
| Orchestration.TransitionHoldsBed | xbeachmi/model.py:596-607 | right after a switch, while the running time is before the transition's time, an update leaves the new running instance with the outgoing instance's recorded `zb` |
| Orchestration.SetVar | xbeachmi/model.py:566-570 | `set_var` of any name but `instance` succeeds; a successful `set_var` keeps the instances and leaves a provisioned instance running |
| Orchestration.SetVarInstance | xbeachmi/model.py:566-568 | `set_var('instance', v)` is `set_instance(str(v))` |
| Orchestration.SetVarForwards | xbeachmi/model.py:569-570 | any other name is set on the running instance and on no other |
| Orchestration.Finalize | xbeachmi/model.py:610-615 | `finalize` keeps the instances and the orchestrator's fields |
| Orchestration.FinalizeCloses | xbeachmi/model.py:613-615 | finalizing distinct instances closes exactly those, each once |
| Orchestration.FinalizeClosesAll | xbeachmi/model.py:613-615 | a `finalize` over every instance closes all of them |
| Orchestration.Initial | xbeachmi/model.py:279-303 | the state after construction; its properties are stated by `InitialRunsFirst` |
| Orchestration.InitialRunsFirst | xbeachmi/model.py:279-303 | after construction, with no instance given, the least provisioned name runs, no transition is open, the cursor is 0, and the instances are exactly the listed and scenario names |
| Model.XBeachMI.constructor | xbeachmi/model.py:279-303 | one engine is created per provisioned instance in sorted order; the first one runs unless an instance was given; the sync rule is fixed for the object's life |
| Model.XBeachMI.Call | xbeachmi/model.py:623-654 | `_call` performs exactly the call `Orchestration.Call` describes, reply included |
| Model.XBeachMI.CurrentTime | xbeachmi/model.py:519-520 | answers the addressed engine's time and changes nothing |
| Model.XBeachMI.GetVar | xbeachmi/model.py:531-532 | answers the running engine's variable (or `None`) and changes nothing |
| Model.XBeachMI.SyncTime | xbeachmi/model.py:391-405 | computes the two times and sends one `update` to the incoming instance, `t2 - t1` as written or `t1 - t2` corrected, reaching the state `Orchestration.Sync` gives |
| Model.XBeachMI.ExchangeData | xbeachmi/model.py:408-423 | the loop over the exchange variables reaches the state of `exchange_data` |
| Model.XBeachMI.SetInstance | xbeachmi/model.py:365-388 | under the object's sync rule, reaches the state of `set_instance` or fails with its `ValueError`, leaving every field as it was |
| Model.XBeachMI.UpdateInstance | xbeachmi/model.py:347-362 | under the object's sync rule, reaches the state of `update_instance` or fails with its error, leaving every field as it was |
| Model.XBeachMI.Update | xbeachmi/model.py:596-607 | under the object's sync rule and with the default `dt = -1`, reaches the state of `update`, the re-imposing loop included, or fails with its error, leaving every field as it was |
| Model.XBeachMI.SetVar | xbeachmi/model.py:566-570 | under the object's sync rule, reaches the state of `set_var` or fails with its error, leaving every field as it was |
| Model.XBeachMI.Finalize | xbeachmi/model.py:610-615 | sends `finalize` to every instance exactly once, in some order, and reaches the state of `finalize` in that order |
| Parsers.IndexOf | xbeachmi/parsers.py:59-60 | the position of the first `=`, or the length when there is none |
| Parsers.Strip | xbeachmi/parsers.py:127 | `str.strip` leaves no whitespace at either end |
| Parsers.StripOf | xbeachmi/parsers.py:127 | stripping text padded with whitespace gives the text |
| Parsers.StrippedFixed | xbeachmi/parsers.py:127 | stripped text is left as it is |
| Parsers.StripIdempotent | xbeachmi/parsers.py:127 | stripping twice is stripping once |
| Parsers.StripSplits | xbeachmi/parsers.py:127 | every text is whitespace, its stripped form, and whitespace |
| Parsers.ParseScalar | xbeachmi/parsers.py:130-137 | a value without whitespace is never a list; a string result is the text itself; the only failure is `ValueError` |
| Parsers.ParseConfigValue | xbeachmi/parsers.py:127-129 | as written, the value fails with `NameError` exactly when its stripped form has inner whitespace or a list is forced |
| Parsers.ParseStripsFirst | xbeachmi/parsers.py:127 | the value is stripped before any test |
| Parsers.BoolExactly | xbeachmi/parsers.py:130-131 | exactly `T` gives true and exactly `F` gives false |
| Parsers.IntPatternBeforeFloat | xbeachmi/parsers.py:132-133 | digits and `-` take the int branch: an int when valid, `ValueError` otherwise |
| Parsers.FloatPatternWithDot | xbeachmi/parsers.py:134-135 | digits, `-` and `.` with a dot take the float branch: a float when valid, `ValueError` otherwise |
| Parsers.OtherTextIsString | xbeachmi/parsers.py:136-137 | any other text is returned as the stripped string |
| Parsers.NotALiteral | xbeachmi/parsers.py:132-135 | `-` and `1.2.3` match the patterns and raise `ValueError` |
| Parsers.FloatExample | xbeachmi/parsers.py:134-135 | `0.5` parses to the float 0.5 |
| Parsers.SignedFloatExample | xbeachmi/parsers.py:134-135 | `-.25` parses to the float -0.25 |
| Parsers.EmptyIsString | xbeachmi/parsers.py:136-137 | the empty value, and a value of only whitespace, give the empty string |
| Parsers.IntRoundTrip | xbeachmi/parsers.py:132-133 | the decimal text of any integer parses back to that integer |
| Parsers.Tokens | xbeachmi/parsers.py:129 | `re.split('\s+', v)` on a stripped value gives at least one token, and on a non-empty value only non-empty tokens without whitespace |
| Parsers.ParseItems | xbeachmi/parsers.py:129 | when every token parses, the list holds one item per token, each the token's parsed scalar |
| Parsers.ParseConfigValueFixed | xbeachmi/parsers.py:127-137 | the corrected `parse_config_value`; stated by `FixedListBranch`, `FixedItemsAreParsedTokens` and `FixedAgreesOutsideListBranch` |
| Parsers.ListBranchRaises | xbeachmi/parsers.py:128-129 | as written, `1 2` raises `NameError` |
| Parsers.FixedListBranch | xbeachmi/parsers.py:128-129 | corrected, `1 2` parses to the list of the integers 1 and 2 |
| Parsers.FixedItemsAreParsedTokens | xbeachmi/parsers.py:128-129 | corrected, a list holds one parsed item per whitespace-separated token, in order |
| Parsers.FixedAgreesOutsideListBranch | xbeachmi/parsers.py:127-137 | outside the list branch the corrected parser and the written one agree |
| Parsers.KeyOf | xbeachmi/parsers.py:60-61 | the key of a line; `SplitAtFirstEquals` states that it is the stripped text before the first `=` |
| Parsers.RawValueOf | xbeachmi/parsers.py:60 | the value text of a line; `SplitAtFirstEquals` states that the spaces after `=` do not change its parse |
| Parsers.SplitAtFirstEquals | xbeachmi/parsers.py:60-62 | a line splits at its first `=`; the key is the stripped text before it, and the spaces around `=` do not change the value |
| Parsers.AddLine | xbeachmi/parsers.py:59-67 | one line's effect on the dictionary; `LineWithoutEqualsIgnored` and `LastDefinitionWins` state it |
| Parsers.ConfigWith | xbeachmi/parsers.py:56-69 | the line loop with a given value parser; `ErrorAborts`, `FailsIffSomeValueFails` and `ConfigKeys` state its properties |
| Parsers.ConfigOf | xbeachmi/parsers.py:41-69 | what `parse_config_file` returns; `ParseConfigFile` is proved to compute it |
| Parsers.ErrorAborts | xbeachmi/parsers.py:56-69 | once a value raises, later lines do not matter |
| Parsers.FailsIffSomeValueFails | xbeachmi/parsers.py:58-62 | parsing a file fails exactly when some line with `=` has a value that fails |
| Parsers.ConfigKeys | xbeachmi/parsers.py:59-67 | the keys of the result are exactly the keys of the lines containing `=` |
| Parsers.LastDefinitionWins | xbeachmi/parsers.py:67 | a key maps to the value of its last defining line |
| Parsers.LineWithoutEqualsIgnored | xbeachmi/parsers.py:59 | a line without `=` changes nothing |
| Parsers.ParseConfigFile | xbeachmi/parsers.py:41-69 | the loop over the lines builds the configuration that the line-by-line definition gives, or fails with its error |
| Progress.Mod | xbeachmi/progress.py:87 | NumPy's `mod` lies in `[0, d)` for positive `d` and in `(d, 0]` for negative `d` |
| Progress.CheckPeriod | xbeachmi/progress.py:84-87 | `check_period`; stated by `PeriodPassedIff` and `ZeroPeriodNeverPasses` |
| Progress.CheckFraction | xbeachmi/progress.py:78-81 | `check_fraction`; stated by `FractionIsPeriod` |
| Progress.PeriodPassedIff | xbeachmi/progress.py:84-87 | for a positive interval, `check_period` holds exactly when a multiple of the interval lies in `(last, t]` |
| Progress.FractionIsPeriod | xbeachmi/progress.py:78-81 | `check_fraction(t, f)` holds exactly when a multiple of `duration * f` lies in `(last, t]` |
| Progress.ZeroPeriodNeverPasses | xbeachmi/progress.py:84-87 | a zero period never passes |
| Progress.CheckTime | xbeachmi/progress.py:90-96 | `check_time` raises `KeyError` exactly when the addressed space is unknown; otherwise it holds exactly when more than `interval` has passed since that space's stamp |
| Progress.Touch | xbeachmi/progress.py:99-105 | `touch_space` stamps the named (or default) space with the clock and changes nothing else |
| Progress.TouchThenCheck | xbeachmi/progress.py:90-105 | right after a touch, the time check on that space fails |
| Progress.ProgressStep | xbeachmi/progress.py:44-75 | one call of `progress`; stated by `ProgressWithoutSpaces`, `ProgressCounts`, `ProgressMissingDefault` and `ProgressAtTimeZeroRaises` |
| Progress.ProgressWithoutSpaces | xbeachmi/progress.py:54-55 | with no spaces, `progress` changes nothing |
| Progress.ProgressCounts | xbeachmi/progress.py:57-75 | with spaces, a `progress` that does not raise increases `i` by exactly one and records `t`; at most the default space's stamp changes |
| Progress.ProgressMissingDefault | xbeachmi/progress.py:57-96 | when the fraction check fails and the default space is missing, `progress` raises `KeyError` |
| Progress.ProgressAtTimeZeroRaises | xbeachmi/progress.py:57-62 | when the time check fires at `t = 0`, the division by `p = 0` raises |
| Progress.DefaultOf | xbeachmi/progress.py:38-41 | the default space; stated by `DefaultIsFirstNamed` and `DefaultAllEmpty` |
| Progress.DefaultIsFirstNamed | xbeachmi/progress.py:38-41 | the default space is the first listed name that is not empty |
| Progress.DefaultAllEmpty | xbeachmi/progress.py:38-41 | with no such name, there is no default space |
| Progress.Initial | xbeachmi/progress.py:30-41 | the state the constructor leaves; stated by `InitialState` |
| Progress.InitialState | xbeachmi/progress.py:30-41 | the constructor sets `i = 1` and `last = 0`, and every listed space gets the same stamp |
| Progress.ProgressIndicator.constructor | xbeachmi/progress.py:14-41 | the constructor's loop builds exactly the initial state |
| Progress.ProgressIndicator.TouchSpace | xbeachmi/progress.py:99-105 | the method performs `touch_space` |
| Progress.ProgressIndicator.Progress | xbeachmi/progress.py:44-75 | the method reaches the state of `progress`, or raises its error leaving every field as it was |
| Mkmap.Edge | mkmap/mkmap1.py:315-330 | one edge's contribution (hit, below, miss), with the `1.0E-8` vertex test first; `StopsOnHit`, `VertexOnBoundary` and `NothingCrossed` state its cases |
| Mkmap.ScanSpec | mkmap/mkmap1.py:311-330 | the loop of `ipon` over the first `k` edges; `ScanCounts` states what it computes |
| Mkmap.Inpout | mkmap/mkmap1.py:332-342 | the answer is always -1 (outside), 0 (on the boundary) or 1 (inside) |
| Mkmap.Ipon | mkmap/mkmap1.py:286-342 | the loop with its early returns gives the answer of the edge-by-edge scan |
| Mkmap.ScanCounts | mkmap/mkmap1.py:311-330 | the early-exit scan ends on the boundary exactly when some examined edge is hit; otherwise it counts every edge that passes below the point |
| Mkmap.StopsOnHit | mkmap/mkmap1.py:315-330 | a hit on any examined edge ends the scan on the boundary, whatever the later edges are |
| Mkmap.IponParity | mkmap/mkmap1.py:318-341 | the answer is 0 exactly when an edge is hit; otherwise it is -1 for an even count of crossings below the point and 1 for an odd count |
| Mkmap.VertexOnBoundary | mkmap/mkmap1.py:315-317 | a vertex other than the closing one within `1.0E-8` of the point in both coordinates gives 0 |
| Mkmap.LeftOfPolygon | mkmap/mkmap1.py:318 | a point with every vertex at least `1.0E-8` to its right is outside, since no edge straddles its vertical |
| Mkmap.RightOfPolygon | mkmap/mkmap1.py:318 | a point with every vertex at least `1.0E-8` to its left is outside |
| Mkmap.NothingCrossed | mkmap/mkmap1.py:315-318 | with every vertex clear of the vertical through the point and on one side of it, the scan counts nothing |
| Mkmap.TranslationInvariant | mkmap/mkmap1.py:308-309 | moving the polygon and the point by the same offset does not change the answer |
| Mkmap.NoEdgeOutside | mkmap/mkmap1.py:305-311 | a polygon of fewer than two points has no examined edge, so every point is outside it |
| Mkmap.SquareCentreInside | mkmap/mkmap1.py:311-341 | the centre of the closed unit square is inside |
| Mkmap.SquareRightOutside | mkmap/mkmap1.py:311-336 | a point to the right of the unit square is outside |
| Mkmap.SquareLowerSideBoundary | mkmap/mkmap1.py:318-330 | a point on the unit square's lower side is on the boundary |
| Mkmap.Grmap | mkmap/mkmap1.py:243-283 | the result is a new array, a copy of `f2` and never `f2` itself; each of the first `n2` points with `iref[0, i2] > 0` holds the weighted sum of its grid-1 values, and every other point keeps its old value |
| Mkmap.Gather | mkmap/mkmap1.py:278-280 | the weighted sum of one grid-2 point; `GatherConstant` states it on a constant grid, and `WeightedSum` is proved to compute it |
| Mkmap.Mapped | mkmap/mkmap1.py:271-280 | the value `grmap` leaves at one point; `Grmap` is proved to leave it |
| Mkmap.WeightedSum | mkmap/mkmap1.py:278-280 | the inner loop's sum over the reference points of one grid-2 point, added in loop order |
| Mkmap.ColumnMajor | mkmap/mkmap1.py:262-263 | one entry of `f1.transpose().flatten()`; stated by `ColumnMajorIndex` |
| Mkmap.Wrap | mkmap/mkmap1.py:279-280 | NumPy's reading of a negative index, counting from the end; `Gatherable` keeps the wrapped index in range |
| Mkmap.ColumnMajorIndex | mkmap/mkmap1.py:262-263 | entry `j * rows + i` of the transposed and flattened grid 1 is `f1[i, j]` |
| Mkmap.DivBound | mkmap/mkmap1.py:262-263 | an index into the flattened grid 1 maps to a row and a column inside the grid |
| Mkmap.GatherConstant | mkmap/mkmap1.py:274-280 | on a constant grid 1, the weighted sum is the constant times the sum of the weights |
| Mkmap.ConstantReproduced | mkmap/mkmap1.py:271-280 | with weights that sum to one, an interpolated point of a constant grid takes that constant |
| Cmd.UpperChar | xbeachmi/cmd.py:23 | lower-case ASCII letters become upper case; every other character is kept |
| Cmd.Upper | xbeachmi/cmd.py:23 | `str.upper` works character by character and keeps the length |
| Cmd.LogLevelToNumber | xbeachmi/cmd.py:22-35 | `logleveltonumber`; stated by `LevelIsStandard`, `LevelOfName`, `CaseInsensitive` and `NameRoundTrip` |
| Cmd.LevelIsStandard | xbeachmi/cmd.py:22-35 | every string maps to one of the six standard `logging` levels |
| Cmd.LevelOfName | xbeachmi/cmd.py:24-35 | each level name maps to its level (INFO 20, DEBUG 10, WARNING 30, ERROR 40, CRITICAL 50) exactly when the upper-cased string is that name; `NOTSET` (0) exactly for every other string |
| Cmd.UpperIdempotent | xbeachmi/cmd.py:23 | upper-casing twice is upper-casing once |
| Cmd.CaseInsensitive | xbeachmi/cmd.py:23 | the level of `s` is the level of `s.upper()` |
| Cmd.LowerCaseInfo | xbeachmi/cmd.py:23-25 | `info` maps to `INFO` |
| Cmd.LowerCaseDebug | xbeachmi/cmd.py:23-27 | `Debug` maps to `DEBUG` |
| Cmd.NameRoundTrip | xbeachmi/cmd.py:24-35 | the name of each level maps back to that level |
| Cmd.UpperOf | xbeachmi/cmd.py:23 | a string is the upper-case form of another when they agree character by character |
| Cmd.UpperIdempotentOnUpper | xbeachmi/cmd.py:23 | an upper-case string is its own upper-case form |

## Left out

- Process plumbing. The worker processes, `JoinableQueue`/`Queue`, `start`, `join` and `initialize` are not modelled: `_call` is a direct call on the addressed engine's state, and the worker loop is modelled on its own over a sequence of queue entries.
- Worker.Serve: the loop ends when the queue is exhausted; the process would block waiting for the next command instead.
- The XBeach engine, reached through `BMIWrapper`, is foreign code. Its `update` and `finalize` are parameters, and either may raise. Its `get_var` of an unknown name and its `set_var` of an unknown name or of `None` are modelled as raising.
- Of the BMI forwarding methods, only `get_current_time` and `get_var` are modelled (as queries of the running instance). `get_start_time`, `get_end_time`, `get_var_count`, `get_var_rank`, `get_var_shape`, `get_var_type` and `get_dimensions` only forward or return constants. The methods that raise `NotImplemented` are left out too.
- Instance names: an empty name given to `_call` (or to `finalize` and `set_instance` through it) routes to the running instance, exactly as Python's `if not instance` does, so instance names are not assumed non-empty. The lemmas about a particular other instance assume that instance's name is not empty.
- Model.XBeachMI.constructor: requires that the initial running instance is provisioned. Python would accept any other name and fail at the first call with `KeyError`.
- Model.XBeachMI.constructor: the configuration is taken as already read. The file I/O of `load_configfile` is not modelled: `os.chdir`, the JSON file, the `IOError` for a missing file, the case of a missing `params_file` (no instances at all), `copytree`/`rmtree` and Mako rendering. The copy-ignore predicate, the directory names, the provisioned set and the `defuse = 0` prefix are modelled as functions.
- Model.XBeachMI.Finalize: the dictionary's iteration order is left open; the method picks each next instance arbitrarily and returns the order it took. The `join` of the processes and the `os.chdir` back to the original directory are I/O.
- `instances` and `spaces` are class-level dictionaries in Python, shared by every object of the class. Each is a field of one object here.
- The step `sync_time` sends is the rule the operations take (see Findings). With `AsWritten` every switch, scenario step, `update` and `set_var('instance', …)` is the program as written; with `Intended` it is the corrected one.
- `get_current_time` never fails in the model. In the program, a failing call is answered with `None`. Python 2 would then record `'time': None` in the transition and compare `None >= tc` in `update_instance` and `None < self.transition['time']` in `update` without raising; those comparisons are not modelled.
- A configuration without `transition_time` or `exchange` is not modelled: the model's configuration always has both. The program would raise `KeyError` in `sync_time` or `exchange_data`, after `set_instance` has already recorded the transition, so that error would leave the state half-changed.
- `exchange_data`'s unused `incremental` argument and its commented-out `dzmax` code are not modelled.
- `XBeachMIWrapper` (netCDF output and reshaping of dimensions) and xbeachmi/netcdf.py are I/O.
- `parse_referenced_file` and the `os.path.exists` test in `parse_config_file` are file I/O. The model reads every value as if it named no existing file. It reads lines from a sequence, not a file.
- Parsers.ParseConfigFile: uses the corrected value parser for the list branch (see Findings). The line-level lemmas hold for any value parser.
- Regular expressions are modelled by their character classes: `\s` as space, tab, newline, carriage return, form feed and vertical tab.
- `int()` and `float()` are modelled on the texts the patterns admit, without exponents or `inf`; the float value is exact.
- Progress: the wall clock (`time.time`) is the parameter `now`.
  - The log line, `time.strftime` and the estimate arithmetic only format a message. What remains of them is the division that raises when `duration` or `t` is 0.
  - `default_space = None` is the empty name.
  - A zero interval gives NaN in `mod` and never passes.
- Floating point: all coordinates, times and values are exact reals, so rounding is not modelled.
  - Mkmap.Ipon: keeps the `1.0E-8` vertex tolerance exactly as a real.
  - Mkmap.TranslationInvariant: holds for exact reals; in floating point, rounding after the shift could change the answer.
- Mkmap.Grmap: requires every index it uses to be in range (`Gatherable`), where NumPy would raise `IndexError`. It takes `f2` already flattened.
- `bilin5`, `mkmap` (which calls `sys.exit` before its body), the test script in mkmap/mkmap1.py and the other mkmap scripts are not part of this model. They rest on floating-point tolerances, `sqrt`, SciPy and matplotlib.
- xbeachmi/console.py and `cmd()` in xbeachmi/cmd.py: command line, docopt and MPI.
- Cmd: `upper` is ASCII upper-casing, as on Python 2 `str`.

## Findings

| source | as written | input that shows it | evidently intended | confidence | as-written member | corrected member |
|---|---|---|---|---|---|---|
| xbeachmi/model.py:403-405 | `sync_time` advances the incoming instance by `t2 - t1`, with `t1 = t_out - transition_time` and `t2 = t_in` | running instance at 1000, incoming at 0, transition time 100: the incoming instance is asked for `update(-900)` and, with an exact clock, ends at -900 | advance by `t1 - t2`, so that the incoming instance stands `transition_time` behind the running one (at 900) and runs through the transition window | not executed; medium (the engine's reading of a negative step is foreign code) | Orchestration.SyncTimeAsWritten, Orchestration.SyncTimeAsWrittenMisaligns, Orchestration.SyncTimeExample | Orchestration.SyncTime, Orchestration.SyncTimeAligns |
| xbeachmi/parsers.py:128-129 | inside the `@staticmethod` `parse_config_value`, the list branch calls `self.parse_config_value`, and `self` is not defined | any value with inner whitespace, e.g. `1 2`, raises `NameError` | parse each whitespace-separated token: `1 2` gives `[1, 2]` | not executed; high | Parsers.ParseConfigValue, Parsers.ListBranchRaises | Parsers.ParseConfigValueFixed, Parsers.FixedListBranch |

Every operation that switches instance takes the sync rule, so both halves of the first row reach the whole switch: `Orchestration.SetInstanceSwitches` gives the switch under either step, and `Orchestration.SetInstanceClock` where each leaves the new running instance's clock.
