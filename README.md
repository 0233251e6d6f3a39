# keepup execution engine in Dafny

keepup runs groups of shell commands, described in a YAML configuration, in ordered
steps. This project models the engine in `core/app/executor.go` and the `--group` filter
`validateGroupParam` of `cmd/root.go`, and proves what they promise. It covers:

- The **group registry.** `NewExecutor` maps each group's name to the group; a later
  duplicate replaces an earlier one.
- The **step scheduler.** `Run` walks the steps in list order. A name missing from the
  registry aborts the run with `group <name> not defined`. A failing group aborts it with
  `step <n> failed`, once its whole step has run.
- The **group runner.** `runGroup` chooses the shell, expands the parameters and builds
  `command + " " + params joined by " "`. It runs `shell -c line` with the merged
  environment and stores the untrimmed output only on success.
- The **parameter expander.** `expandParams` replaces `{{ output.K }}` with the trimmed
  output of group K, one stored key after another.
- The **environment merge.** `mergeEnvs` layers the base `K=V` list, then the global
  env, then the group env, and writes back one `k=v` per key.
- The **group filter.** `validateGroupParam` checks the name against the configured
  groups. On a match it replaces the plan with one step holding only that group.

The module layout:

- `Config.dfy`: the configuration datatypes.
- `GoStrings.dfy`: the parts of Go's `strings` package and `%d` formatting the engine
  relies on.
- `Expansion.dfy`, `Environment.dfy`, `App.dfy`: the engine.
- `AppProperties.dfy`: the properties of a whole run.
- `Scenarios.dfy`: the situations `core/app/executor_test.go` exercises.
- `Cmd.dfy`: the group filter.

The world outside the engine is a `Host` value:

- `os.Environ()`;
- `$SHELL`;
- a function from an invocation (group, shell, arguments, environment) to a process
  result (exit status zero or not, combined output);
- the order in which each call of `sync.Map.Range` visits the store. `expandParams`
  calls `Range` afresh for every parameter, so the order is chosen per call: by the
  group being run, the index of the parameter and the store it sees.

The datatypes of `Config.dfy` transcribe the configuration structs of
`core/config/config.go:12-43`: `Config` (lines 12-18) with its version, settings, groups,
steps and global env; `Logging` (lines 20-23); `Settings` (lines 25-29); `Group` (lines
31-39) with its name, command, parameters, shell, description and env, its `Concurrency`
field dropped; and `Step` (lines 41-43), the list of group names one step runs. The YAML
tags are not modelled.

`App.Exec` and `App.RunStep` specify a run. The class `App.Executor` holds the registry,
the configuration and the mutable output store. Its methods `RunGroup` and `Run` are
proved against those specifications.

Two behaviours of the code are easy to miss. The model follows the code:

- **Substituted text is expanded again.** `expandParams` runs `ReplaceAll` once per
  stored key on the text left by the previous keys. So an output that itself contains a
  placeholder is expanded further when its key is visited later, and the result depends
  on the `Range` order. `Expansion.ExpandOrderDependent` shows two orders giving
  different results.
- **Groups before a missing name have already run.** When a step names a group that is
  not registered, the groups listed before it in that step were already launched. In the
  model they have run, and each that succeeded has stored its output, when `Run` returns
  the error (`AppProperties.StepMissingPrefix`, `Scenarios.RunGroupNotDefined`).

## Model

| member | source | states |
|---|---|---|
| App.Executor.constructor | core/app/executor.go:25-35 | the registry is every configured group keyed by its name, the later one winning; the configuration is kept; the output store starts empty |
| AppProperties.RegistryLookup | core/app/executor.go:27-29 | a name is registered iff some group has it; the registered group carries that name; it is the last group in the list with that name |
| AppProperties.RegistryNamesMatch | core/app/executor.go:27-29 | every registered group is stored under its own name |
| App.RegistryOf | core/app/executor.go:27-29 | definition: the groups stored one by one under their names, a later one replacing an earlier one; its properties are `RegistryLookup` and `RegistryNamesMatch` |
| App.ShellFor | core/app/executor.go:80-83 | the shell is the group's own shell if set, else `$SHELL` if set, else `/bin/sh`; it is never empty |
| App.DefaultShell | core/app/executor.go:131-137 | definition: `$SHELL`, or `/bin/sh` when it is empty; `ShellFor` states the resulting choice |
| App.CommandLine | core/app/executor.go:92 | the line starts with the command and one space, and is exactly `command + " "` when there are no parameters |
| App.ParamOrders | core/app/executor.go:87-88 | definition: one `Range` order per parameter of a group, chosen by the host for that group, parameter index and store |
| App.GroupInvocation | core/app/executor.go:80-100 | definition: the shell, `-c` and the line built from the expanded parameters, and the merged environment; `EmptyStoreLine` and `CrossStepSubstitution` work it through |
| App.GroupResult | core/app/executor.go:94-110 | definition: the host's process result for that invocation; `Executor.RunGroup` is proved against it |
| AppProperties.CommandLineWords | core/app/executor.go:92 | splitting the line at spaces gives back the command and the parameters (one empty word when there are none), provided none of them holds a space |
| App.Executor.RunGroup | core/app/executor.go:75-120 | runs `shell -c line` with the merged env for the parameters expanded against the snapshot; the result is the process's success; the store gains the untrimmed output under the group's name on success and is unchanged on failure |
| App.Executor.Run | core/app/executor.go:37-73 | the returned error and final store are those of the run specification `Exec` over the configured steps from the initial store; no steps means no error and no change |
| App.RunStep | core/app/executor.go:44-62 | definition: the launching loop of one step, stopping at a missing name and collecting failed groups; its properties are `StepCleanIff`, `StepStores`, `StepMissingIff` and `StepMissingPrefix` |
| App.Exec | core/app/executor.go:38-72 | definition: the steps in order from a given step number; its properties are `ExecSplit`, `ExecStopsAt`, `ExecOkIff` and `OutputVisibleLater` |
| App.Message | core/app/executor.go:47-67 | definition: `group <name> not defined` and `step <n> failed`; `StepFailedMessage` states the number reads back |
| App.PrependPrepend | core/app/executor.go:53-56 | collecting the failures of consecutive groups of a step is associative |
| AppProperties.StepCleanIff | core/app/executor.go:44-63 | a step ends with no missing name and no failure iff every name it lists is registered and that group succeeds |
| AppProperties.StepStores | core/app/executor.go:50-58 | after a step whose names resolve: the failed groups are exactly those whose run failed; each successful group's untrimmed output is stored under its name, even when a sibling failed; failing groups add nothing; other entries are unchanged |
| AppProperties.StepMissingIff | core/app/executor.go:44-48 | a step stops at a missing name iff it lists a name that is not registered |
| AppProperties.StepMissingPrefix | core/app/executor.go:44-48 | the missing name reported is the first unregistered one listed; every group listed before it has run, and each that succeeded has stored its output (the store is the one running those groups leaves); none after it has started |
| AppProperties.MissingAtShift | core/app/executor.go:44-58 | stopping at position j of the rest of a step whose first group was launched is stopping at position j + 1 of the step |
| AppProperties.StepKeysGrow | core/app/executor.go:117 | a step never removes a stored entry |
| AppProperties.StepFailedMessage | core/app/executor.go:67 | `step N failed` carries the step number as decimal digits that read back as N |
| AppProperties.ExecSplit | core/app/executor.go:38-70 | running `s1 + s2` is running `s1` and then, only if it returned no error, running `s2` from the store `s1` left, numbered after it |
| AppProperties.ExecStopsAt | core/app/executor.go:44-67 | a run returning an error stops at one step: all earlier steps finished cleanly; the error names the missing group or the step's 1-based number; later steps play no part |
| AppProperties.ExecOkIff | core/app/executor.go:37-73 | the run returns no error iff every step's groups all resolve and succeed, each step starting from the store the earlier steps left |
| AppProperties.SingleStep | core/app/executor.go:60-70 | a one-step run returns no error iff that step's launching loop ends with no missing name and no failure, and then leaves that loop's store |
| AppProperties.ExecExtendKeys | core/app/executor.go:38-70 | a run that got through some steps keeps every entry they left, whatever steps follow |
| AppProperties.LastStepStores | core/app/executor.go:110-117 | every group of the last step of a run that returned no error has an entry |
| AppProperties.ExecKeysGrow | core/app/executor.go:117 | a run never removes a stored entry |
| AppProperties.CleanStepStores | core/app/executor.go:110-117 | every group of a step that ended cleanly has an entry afterwards |
| AppProperties.OutputVisibleLater | core/app/executor.go:38-70 | every group of a step that finished without error still has an entry when the run ends, whatever the later steps do |
| Expansion.Substitute | core/app/executor.go:124-125 | definition: one visit of `Range`, replacing a stored key's placeholder with its trimmed output; `SubstituteWhole` and `ReplaceAllJoin` state its effect |
| Expansion.Expand | core/app/executor.go:122-128 | definition: the visits of one `Range` order in turn, each on the previous result; `ExpandParams`, `ExpandPlaceholders` and `ExpandOrderDependent` state its effect |
| Expansion.Placeholder | core/app/executor.go:124 | the placeholder for K is K wrapped in 13 fixed characters, starting with `{` |
| Expansion.ExpandAll | core/app/executor.go:86-89 | the expanded list has one entry per parameter, each parameter expanded on its own by its own `Range` order |
| Expansion.ExpandParams | core/app/executor.go:122-129 | the loop's result is the fold of the substitutions over the visiting order |
| Expansion.SubstituteWhole | core/app/executor.go:124-125 | one visit of a stored key turns its own placeholder into its trimmed output |
| Expansion.ExpandTwo | core/app/executor.go:123-127 | two visits in a row apply the second key's replacement to the result of the first |
| Expansion.ExpandNoPlaceholder | core/app/executor.go:122-129 | text holding no stored key's placeholder comes back unchanged, whatever the order |
| Expansion.ExpandEmptyStore | core/app/executor.go:122-129 | with nothing stored, every parameter comes back verbatim |
| Expansion.PlaceholderBraces | core/app/executor.go:124 | a placeholder's only braces are its two opening and two closing ones, when the key holds none |
| Expansion.PlaceholderOccursAt | core/app/executor.go:124 | one brace-free key's placeholder occurs inside another's only when the keys are equal |
| Expansion.PlaceholderDistinct | core/app/executor.go:124 | for brace-free keys, one placeholder contains another iff the keys are equal |
| Expansion.NoPlaceholderWithoutBrace | core/app/executor.go:124-125 | text with no `{` contains no placeholder |
| Expansion.PlaceholderNotAtStart | core/app/executor.go:124 | no other brace-free key's placeholder starts where a placeholder starts, whatever follows |
| Expansion.PlaceholderTail | core/app/executor.go:124 | past its two opening braces a placeholder holds no `{` |
| Expansion.ReplaceAllSkipPlaceholder | core/app/executor.go:125 | replacing another key's placeholder copies K's placeholder and goes on after it |
| Expansion.ReplaceAllJoinOther | core/app/executor.go:125 | replacing another key's placeholder leaves text made of K's placeholders and pieces without `{` unchanged |
| Expansion.ExpandPlaceholders | core/app/executor.go:122-129 | every occurrence of K's placeholder in a parameter becomes K's trimmed output and the text around them is kept, in any order that visits K, when no key holds braces and neither the trimmed output nor the surrounding text holds `{` |
| Expansion.Interleave | core/app/executor.go:122-129 | definition: a parameter as pieces of text with a slot between consecutive pieces |
| Expansion.SlotText | core/app/executor.go:124-125 | definition: what a placeholder has become after some visits: its key's trimmed output once a stored key was visited, the placeholder itself otherwise |
| Expansion.Slots | core/app/executor.go:122-129 | the slot list has one entry per key, the entry for key i being what key i's placeholder has become |
| Expansion.Resolved | core/app/executor.go:122-129 | the expected slot list: each stored key's trimmed output, and each unstored key's placeholder |
| Expansion.ReplaceSlot | core/app/executor.go:125 | one visit of key j on a piece, a slot and the rest: the piece is copied; the slot becomes j's trimmed output if it is j's stored placeholder, and is copied otherwise |
| Expansion.SubstituteSlots | core/app/executor.go:124-125 | one visit of key j turns every slot still holding j's placeholder into j's trimmed output, keeps every other slot and keeps the pieces |
| Expansion.ExpandSlots | core/app/executor.go:122-128 | visiting the keys of an order in turn resolves exactly the slots of stored keys in that order |
| Expansion.ExpandEachPlaceholder | core/app/executor.go:122-129 | a parameter holding placeholders of any keys, same or different, between pieces without `{`: each stored key's placeholder becomes its trimmed output and each unstored key's placeholder stays verbatim, in any order visiting every stored key among them, when no trimmed output holds `{` and no key holds braces |
| Expansion.ExpandSinglePlaceholder | core/app/executor.go:122-129 | the case of a parameter that is exactly K's placeholder: it becomes K's trimmed output |
| Expansion.ExpandUnstoredPlaceholder | core/app/executor.go:122-129 | the placeholder of a group with no stored output comes back verbatim, whatever the order, when no key holds braces |
| Expansion.PlaceholderTrimmed | core/app/executor.go:124-125 | trimming a placeholder keeps it whole |
| Expansion.ChainedForward | core/app/executor.go:123-127 | when A's output is B's placeholder, visiting A then B turns A's placeholder into B's trimmed output |
| Expansion.ChainedBackward | core/app/executor.go:123-127 | in the same store, visiting B then A turns A's placeholder into B's placeholder |
| Expansion.ExpandOrderDependent | core/app/executor.go:123-127 | substituted text is rewritten by keys visited later: for brace-free keys A and B, where A's output is B's placeholder and B's output holds no `{`, the two visiting orders give different results |
| Environment.BaseEnv | core/app/executor.go:142-148 | definition: the base entries read in order, split at the first `=`, entries without one dropped; its properties are `BaseEnvKeys`, `BaseEnvLastWins` and `BaseEnvUniform` |
| Environment.Overlay | core/app/executor.go:150-153 | definition: each layer copied over the result in turn; `OverlayLookup` states the lookup |
| Environment.Merged | core/app/executor.go:139-153 | definition: the layers over the base entries; `EnvLayering` states the precedence |
| Environment.MergeLayers | core/app/executor.go:140-153 | the map the loops build is the base entries overlaid by each override layer in turn |
| Environment.Flatten | core/app/executor.go:155-160 | the written list is `Entry(k, v)` for a list of pairwise different keys that holds every key of the map, one entry per key in the list's order, and nothing else |
| Environment.Entry | core/app/executor.go:158 | definition: the `%s=%s` string written for one key; `EntryRoundTrip` states it splits back |
| Environment.EnumeratesVia | core/app/executor.go:155-160 | definition: the list writes `Entry(ks[i], env[ks[i]])` at each position i, for keys `ks` that are pairwise different and are exactly the map's keys; it fixes the multiplicity of every entry |
| Environment.EnumeratesEnvSize | core/app/executor.go:155-160 | the written list has exactly as many entries as the map has keys |
| Environment.MergeEnvs | core/app/executor.go:139-161 | the returned list is one `Entry(k, v)` per key of the merged environment, over pairwise different keys, and nothing else |
| Environment.BaseEnvKeys | core/app/executor.go:143-148 | a key is in the base map iff some base entry splits at a `=` into that key; entries without `=` are dropped |
| Environment.BaseEnvLast | core/app/executor.go:143-148 | the last base entry adds its key, if it has a `=`, to the keys the earlier entries set |
| Environment.BaseEnvLastWins | core/app/executor.go:143-148 | a key's value comes from the last base entry that sets it, split at its first `=` |
| Environment.BaseEnvUniform | core/app/executor.go:143-148 | when every base entry that sets a key gives the same value, that is the key's value |
| Environment.OverlayLookup | core/app/executor.go:151-153 | a key is in the result iff it is in the base or in some layer; the last layer defining it decides its value; with no layer defining it, the base value stays |
| Environment.EnvLayering | core/app/executor.go:96-100 | the group env beats the global env, which beats the base environment |
| Environment.EntryRoundTrip | core/app/executor.go:143-148 | a written `k=v`, with no `=` in k, splits back into k and v |
| Environment.FlattenReadBack | core/app/executor.go:155-160 | reading a written list as a base environment gives back the map it enumerates |
| Environment.FlattenReadBackKeySet | core/app/executor.go:155-160 | the keys a written list sets, read as a base environment, are the keys of the map it enumerates |
| Environment.FlattenReadBackKeys | core/app/executor.go:155-160 | a written list sets exactly the keys of the map it enumerates |
| Environment.FlattenReadBackValue | core/app/executor.go:155-160 | every written entry for a key carries the map's value for it |
| GoStrings.IsSpace | core/app/executor.go:125 | definition: `unicode.IsSpace`, the white space `strings.TrimSpace` removes: tab, newline, vertical tab, form feed, carriage return, space, U+0085, U+00A0 and the other Unicode White_Space characters |
| GoStrings.TrimSpace | core/app/executor.go:125 | the result is the input less a leading and a trailing run of white space, and starts and ends with no white space |
| GoStrings.SkipSpace | core/app/executor.go:125 | the forward scan stops at the first non-white-space character at or after its start, or at the end |
| GoStrings.SkipSpaceBack | core/app/executor.go:125 | the backward scan stops just after the last non-white-space character, never before its lower bound |
| GoStrings.TrimBounds | core/app/executor.go:125 | cutting at the two scan positions leaves white space before, a trimmed middle, and white space after |
| GoStrings.TrimSpaceKeepsOut | core/app/executor.go:125 | trimming only removes characters: a character absent from the input is absent from the trimmed result |
| GoStrings.TrimSpaceUnique | core/app/executor.go:125 | trimming `spaces + m + spaces` gives m when m is trimmed |
| GoStrings.TrimSpaceIdempotent | core/app/executor.go:125 | trimming twice is trimming once |
| GoStrings.ReplaceAllAbsent | core/app/executor.go:125 | replacing a pattern the text does not contain changes nothing |
| GoStrings.ReplaceAllWhole | core/app/executor.go:125 | replacing the whole text by its own pattern gives the replacement |
| GoStrings.ReplaceAll | core/app/executor.go:125 | definition: a left-to-right scan replacing each non-overlapping occurrence without rescanning the replacement; `ReplaceAllAbsent`, `ReplaceAllWhole` and `ReplaceAllJoin` state its effect |
| GoStrings.ReplaceAllStep | core/app/executor.go:125 | where the pattern does not start, the first character is copied and the scan goes on |
| GoStrings.ReplaceAllLead | core/app/executor.go:125 | a leading occurrence of the pattern becomes the replacement |
| GoStrings.ReplaceAllPrefix | core/app/executor.go:125 | a prefix without the pattern's first character is copied unchanged |
| GoStrings.ReplaceAllJoin | core/app/executor.go:125 | every occurrence is replaced: pieces without the pattern's first character joined by the pattern become the same pieces joined by the replacement |
| GoStrings.Join | core/app/executor.go:92 | definition: the elements with the separator between consecutive ones; `SplitJoin` states its inverse |
| GoStrings.JoinPair | core/app/executor.go:92 | two elements are joined by one separator |
| GoStrings.JoinKeepsOut | core/app/executor.go:92 | a character in no element and not in the separator is not in the joined string |
| GoStrings.SplitJoin | core/app/executor.go:92 | splitting a joined list at the separator gives the list back when no element holds the separator |
| GoStrings.Cut | core/app/executor.go:144-145 | the split fails iff there is no `=` |
| GoStrings.CutSplits | core/app/executor.go:144-146 | when there is a `=`, the text is the key, `=`, the value, and the key holds no `=` |
| GoStrings.CutJoined | core/app/executor.go:144 | `k + "=" + v` with no `=` in k splits into k and v |
| GoStrings.DecimalString | core/app/executor.go:67 | the step number is written as non-empty decimal digits with no leading zero |
| GoStrings.DecimalRoundTrip | core/app/executor.go:67 | the written digits read back as the number |
| Scenarios.EmptyStoreLine | core/app/executor.go:86-92 | against an empty store the command line is the command and the parameters as written |
| Scenarios.RunSuccess | core/app/executor_test.go:10-33 | two succeeding `echo` groups in one step: no error, and both outputs are stored untrimmed |
| Scenarios.RunGroupNotDefined | core/app/executor_test.go:35-54 | a step naming an unregistered group fails with `group group2 not defined`, after group1 has run |
| Scenarios.RunCommandFails | core/app/executor_test.go:56-75 | a failing command gives `step 1 failed` and stores nothing; its line is `false ` |
| Scenarios.SameStepPlaceholderVerbatim | core/app/executor_test.go:77-100 | a placeholder for a sibling in the same step reaches the shell verbatim, and both outputs are stored |
| Scenarios.SameStepRegistry | core/app/executor_test.go:79-83 | the two groups of that configuration are registered under their names |
| Scenarios.SameStepLine | core/app/executor_test.go:81 | against the empty store group1's line is `echo {{ output.group2 }}` |
| Scenarios.TrimWorld | core/app/executor.go:125 | the trimmed `World\n` is `World` |
| Scenarios.ExpandWorld | core/app/executor.go:122-129 | with group2's output `World\n` stored, its placeholder expands to `World` in any order that visits group2 |
| Scenarios.CrossStepSnapshot | core/app/executor.go:38-70 | a first step running group2 leaves exactly its output stored |
| Scenarios.CrossStepSubstitution | core/app/executor.go:86-94 | from that store a later step's group1 hands `echo World` to the shell |
| Cmd.FilterPlan | cmd/root.go:96-114 | empty name: config unchanged, no error; unknown name: config unchanged, error `GroupNotFound`; known name: the plan becomes one step holding that name; only the plan ever changes |
| Cmd.ValidateGroupParam | cmd/root.go:96-114 | the scan with the `found` flag yields exactly the configuration and error `FilterPlan` describes |
| Cmd.FilterPlanIdempotent | cmd/root.go:109-111 | filtering again by a name that was found changes nothing |
| Cmd.ErrorMessage | cmd/root.go:106 | definition: `group "<name>" not found in config` |

## Left out

- Process spawning, stream copying, `os.Environ` and `os.Getenv` are foreign I/O. They are the `Host` value: an environment list, a `$SHELL` value, a process oracle and a `Range` order.
- Goroutines, `sync.WaitGroup`, the error channel and `sync.Map` locking are not modelled. The groups of a step run one after another, each expanding against the store as the step began. That is one interleaving of the concurrent code, the one `core/app/executor_test.go:77-100` observes. Other interleavings, where a sibling's output is already visible, are not covered.
- App.Executor.Run: when a name is missing, the groups launched before it have run to completion in the model. In Go they may still be running when `Run` returns.
- The order in which `sync.Map.Range` visits keys is an input, not a proved property. A real order lists every stored key once; `Expand` also accepts other sequences.
- App.GroupResult: the process oracle is a function of the invocation. Repeated launches of an identical invocation (the same group, line and environment, listed twice in one step or in two steps) get identical results, while Go starts a fresh process each time. A command with side effects, such as `mkdir` on a fixed path, can succeed the first time and fail the second; the model cannot show that run ending with `step 2 failed`, and `AppProperties.StepStores` says nothing about a name repeated within a step beyond that shared result.
- App.Executor.RunGroup: the `Range` order is chosen by group name, parameter index and store. When the same group runs twice against an equal store (listed twice in one step, or in two steps between which nothing was stored), the model gives both runs the same orders, where Go may visit the keys differently each time.
- GoStrings.TrimSpace: a model `string` holds Unicode characters, while a Go string holds bytes. `strings.TrimSpace` decodes UTF-8 and counts invalid bytes as non-space; `strings.ReplaceAll` matches bytes. Process output that is not valid UTF-8 cannot be represented, so the model is exact for valid UTF-8 output only (stored at `core/app/executor.go:117`, trimmed at line 125).
- Environment.Flatten: the order of the `k=v` list is not specified, since Go map iteration order is unspecified. The process oracle receives the environment as a map.
- The log messages, including `group <name> failed: <err>` for each failed group, are not modelled, and neither is the logger in `logger/logging.go`.
- Cmd.ErrorMessage: Go's `%q` escaping of the group name is not modelled; the name is quoted as is.
- Cmd.ValidateGroupParam: Go assigns the plan through a `*config.Config`; the method returns the configuration the caller holds afterwards.
- The `Concurrency` field of a group is never read by the engine and is dropped.
- `NewConfig` and `LoadConfig` (YAML decoding, file reading), the cobra command wiring in `cmd/root.go` and `cmd/version.go` are not part of this model.
- Expansion.ExpandPlaceholders: it is stated only for keys, outputs and surrounding text without opening braces (`ExpandSinglePlaceholder` is its one-placeholder case). `Expansion.ExpandEachPlaceholder` states the same for placeholders of several keys, under the same restriction. With braces, a later key's replacement can rewrite the substituted text, as `Expansion.ExpandOrderDependent` shows.
