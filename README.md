# bb-automation in Dafny

A model of the decision logic of bb-automation, a set of scripts that copy
Bitbucket deployment and pipeline variables from one repository environment
to another. The model covers four pieces:

- the variable diff of `PreReleaseHook.migrateEnvironmentVariables` and
  `PreReleaseHook.migrateRepositoryVariables`: which variables are created,
  "updated" and deleted in the target, and which value each call sends
  (module `VariableDiff`, file `variable_diff.dfy`);
- the rest of `PreReleaseHook`: resolving the target environment
  (`firstOrCreateEnvironment`), the loop of `run` that picks the source
  environments and names their snapshot files, and the choice of the
  snapshot file to migrate from (module `PreReleaseHook`,
  `pre_release_hook.dfy`);
- the snapshot file-name parser `splitFullName` (module `Util`, `util.dfy`);
- the paged repository search `App.filterRepositories` and
  `App.getAllRepositories` (module `App`, `app.dfy`).

The JavaScript built-ins the code relies on (`indexOf`, `includes`, `replace`
with a string pattern, `split`, `substr`, `toLowerCase`) are modelled in
`jsstring.dfy` (module `JsString`), and lodash's `differenceWith` and the
array `filter` in `lodash.dfy` (module `Lodash`). `wrappers.dfy` holds the
`Option` and `Result` types.

Remote calls are not sent: the diff returns the calls it would issue, in
order, as records (`CreateVariable`, `UpdateVariable`, `DeleteVariable`,
`CreatePipelineVariable`), and environment resolution returns either
`Existing(env)` or `Create(name, type)`. Responses of the Bitbucket API, the
dump directory listing and the parsed snapshot are inputs. The pages of
`getRepositories` are a sequence of `Page` values; asking for a page beyond
the sequence gets `undefined`.

The model follows the code where the code and its evident intent differ:

- the "update" set is drawn from the target's variables, so it also holds
  every target variable whose key the source lacks, and each update sends
  the target variable's own value back, or `"dummy"` when it has none;
- the `"dummy"` placeholder replaces an empty or missing value, whether the
  variable is secured or not, although the documentation of
  `overwriteSecuredVariables` (src/pre-release-hook.ts:28-31) and the
  comment at src/pre-release-hook.ts:100 say secured variables are skipped
  by default: a secured target variable, listed without a value, is
  overwritten with `"dummy"`;
- snapshot files are written as `repoUuid~repoName~envName.json`, while
  `splitFullName` reads `{guid}~STAGE APP.json`;
- `filterRepositories` splices `projects` at the repository's index on the
  page, not at the index of the matched name.

Each of these is logged under "## Findings" together with a corrected
definition, as is a repository that is listed twice in the paged search.

## Model

| member | source | states |
|---|---|---|
| JsString.IndexOf | src/util.ts:6-7 | `indexOf` is -1 exactly when the pattern does not occur, otherwise the first index where it occurs |
| JsString.Includes | src/pre-release-hook.ts:219 | `includes` holds exactly when the pattern occurs somewhere |
| JsString.ReplaceFirst | src/util.ts:5 | `replace` with a string pattern changes nothing when the pattern is absent, and otherwise replaces only its first occurrence |
| JsString.Substr | src/util.ts:6 | `substr` returns nothing for a length of zero or less (the no-space case) and the slice for an in-range start and length |
| JsString.SubstrFrom | src/util.ts:7 | `substr(start)` is the suffix from an in-range `start` |
| JsString.Split | src/util.ts:4 | `split` yields at least one piece, and exactly one when the separator does not occur |
| JsString.SplitJoin | src/util.ts:4 | joining the pieces of `split` with the separator gives the input back |
| JsString.SplitPiecesLackSeparator | src/util.ts:4 | no piece of `split` contains the separator |
| JsString.ToLower | src/pre-release-hook.ts:219 | `toLowerCase` keeps the length and lower-cases each ASCII capital, leaving every other character as it is |
| Lodash.DifferenceWith | src/pre-release-hook.ts:159 | `differenceWith` keeps exactly the elements of the first list that no element of the second matches, never adding any |
| Lodash.DifferenceWithAppend | src/pre-release-hook.ts:158-159 | `differenceWith` keeps the order of its first list: it distributes over concatenation |
| Lodash.Filter | src/pre-release-hook.ts:134 | `filter` keeps exactly the elements that satisfy the predicate |
| Lodash.FilterHead | src/pre-release-hook.ts:218-223 | the first element `filter` returns is the first element of the list that satisfies the predicate |
| Lodash.FilterEmpty | src/pre-release-hook.ts:221 | `filter` returns nothing exactly when no element satisfies the predicate |
| VariableDiff.SameKeyAndValue | src/pre-release-hook.ts:177-178 | the update comparator: equal keys and equal values, a missing value read as `""`; `KeyAndValueMatch` states when it finds a match |
| VariableDiff.VarsToCreate | src/pre-release-hook.ts:158-159 | `uniqueVarsToCreate`; `CreateSetIsMissingKeys` states its members and order |
| VariableDiff.VarsToUpdate | src/pre-release-hook.ts:177-179 | `uniqueVarsToUpdate`, drawn from the target; `UpdateSetIsUnmatchedTarget` states its members |
| VariableDiff.VarsToDelete | src/pre-release-hook.ts:196-202 | `uniqueVarsToDelete`; `DeletesAreTargetOnlyKeys` states its members |
| VariableDiff.MigrateEnvironmentVariables | src/pre-release-hook.ts:158-209 | issues at most one create per source variable, one update per target variable, and deletes only with `deleteInTarget`, at most one per target variable; the calls themselves are stated by `CreateCallsCarrySourceFields`, `UpdateCallsSendTargetValues` and `DeletesAreTargetOnlyKeys` |
| VariableDiff.MigrateRepositoryVariables | src/pre-release-hook.ts:131-137 | the pipeline creates of `migrateRepositoryVariables`; `RepositoryCreatesUnsecuredMissing` states exactly which |
| VariableDiff.SentValue | src/pre-release-hook.ts:171 | `value \|\| "dummy"` is never empty: the value itself when non-empty, otherwise `"dummy"` |
| VariableDiff.KeyMatch | src/pre-release-hook.ts:158 | the key comparator finds a match exactly when the key is among the other list's keys |
| VariableDiff.SameKey | src/pre-release-hook.ts:158 | `createComparator`, and `comparator` (:131) and `deleteComparator` (:197) alike: equal keys; `KeyMatch` states what it matches in a list |
| VariableDiff.Normalized | src/pre-release-hook.ts:178 | `value \|\| ""`; `KeyAndValueMatch` and `SentValue` state its use |
| VariableDiff.CreateCallFor | src/pre-release-hook.ts:164-174 | the create call for a variable; `CreateCallsCarrySourceFields` states its key, flag and sent value |
| VariableDiff.UpdateCallFor | src/pre-release-hook.ts:182-193 | the update call for a variable; `UpdateCallsSendTargetValues` states its uuid, key, flag and sent value |
| VariableDiff.KeyAndValueMatch | src/pre-release-hook.ts:177-178 | the update comparator finds a match exactly when some variable has the same key and the same value, missing values read as `""` |
| VariableDiff.CreateSetIsMissingKeys | src/pre-release-hook.ts:158-159 | the create set is exactly the source variables whose key the target lacks, in source order |
| VariableDiff.CreateCallsCarrySourceFields | src/pre-release-hook.ts:164-175 | each create sends a missing source variable's key and `secured` flag with its value, or `"dummy"` when that is empty; every missing source variable gets its create |
| VariableDiff.UpdateSetIsUnmatchedTarget | src/pre-release-hook.ts:177-179 | the update set is exactly the target variables that no source variable matches by key and normalised value, so it holds every target variable whose key the source lacks |
| VariableDiff.UpdateCallsSendTargetValues | src/pre-release-hook.ts:182-194 | each update sends a target variable's own uuid, key, `secured` flag and value (or `"dummy"`); every variable of the update set gets its update |
| VariableDiff.DeletesAreTargetOnlyKeys | src/pre-release-hook.ts:196-209 | no deletes without `deleteInTarget`; with it, exactly the uuids of the target variables whose key the source lacks, each of which is also in the update set |
| VariableDiff.UnchangedVariablesUntouched | src/pre-release-hook.ts:158-202 | no key is both created and deleted, and a target variable with the same key and normalised value as a source variable is in no set |
| VariableDiff.ExistingKeysGetNoSourceValue | src/pre-release-hook.ts:177-194 | a key the target already has is never written with a source value: no create names it and each update sends the target variable's own value, or `"dummy"` when it has none |
| VariableDiff.ValuelessTargetOverwritten | src/pre-release-hook.ts:177-194 | a target variable without a value (as secured ones are listed) that no source variable of its key matches is updated to `"dummy"`, with or without a source value for the key and with or without `deleteInTarget` |
| VariableDiff.SecuredTargetOverwrittenWithPlaceholder | src/pre-release-hook.ts:177-194 | a secured target T listed without a value is updated to "dummy" both when the source lacks T and when it holds T = "x", with deletion off |
| VariableDiff.GuardedUpdates | src/pre-release-hook.ts:28-31 | the update batch the `overwriteSecuredVariables` documentation and the comment at :100 describe; its length is at most the source's, and `GuardedUpdatesSound`, `GuardedUpdatesComplete` and `GuardedUpdatesKeepSecrets` state what it holds |
| VariableDiff.GuardedUpdate | src/pre-release-hook.ts:28-31 | for a source and a target variable of one key: an update exactly when their values differ and either neither is secured or the option is set; it names the target's uuid, is secured when either side is, and sends `"dummy"` when secured and the source value otherwise |
| VariableDiff.GuardedUpdatesOrigin | src/pre-release-hook.ts:28-31 | every guarded update is the one some source variable makes to the first target variable of its key |
| VariableDiff.GuardedUpdatesSound | src/pre-release-hook.ts:28-31 | every guarded update names a target variable and a source variable of its key and is secured when either is; a secured update exists only with the option set and sends `"dummy"`; an unsecured one sends an unsecured source variable's value |
| VariableDiff.GuardedUpdatesComplete | src/pre-release-hook.ts:28-31 | with unique target keys, a source variable whose key the target holds with another value gets an update with the source value when neither side is secured, and one with `"dummy"` when one is and the option is set |
| VariableDiff.GuardedUpdatesKeepSecrets | src/pre-release-hook.ts:28-31 | with unique target keys and the option off, no update names the key of a secured target variable, and no update is secured |
| VariableDiff.GuardedUpdatesOnSecret | src/pre-release-hook.ts:28-31 | a secured target T without a value against source T = "x", and a secured source K = "secret" against an unsecured target K = "old": no update with the option off, and an update to `"dummy"` with it on |
| VariableDiff.RepositoryCreatesUnsecuredMissing | src/pre-release-hook.ts:131-137 | `migrateRepositoryVariables` creates exactly the unsecured source variables whose key the target lacks, passing their value on unchanged |
| VariableDiff.SecuredValueKeptScenario | src/pre-release-hook.ts:158-209 | source A=1, B=2 (secured), target A=1, C=9 with deletion on: create B with "2", update C to its own "9", delete C |
| VariableDiff.ChangedValueUpdatedToOldValue | src/pre-release-hook.ts:182-192 | a changed value A: "old" → "new" yields one update, of A to "old" |
| VariableDiff.FirstWithKey | src/pre-release-hook.ts:177-179 | finds a variable exactly when the key is present, and then the first variable of the list with that key |
| VariableDiff.IntendedUpdates | src/pre-release-hook.ts:182-192 | each intended update carries a source variable's key, value and `secured` flag and the uuid of a target variable with that key |
| VariableDiff.IntendedUpdatesComplete | src/pre-release-hook.ts:177-192 | with unique target keys, every source variable whose key the target holds with another value gets an update to the source value |
| VariableDiff.IntendedUpdatesDisjoint | src/pre-release-hook.ts:158-202 | an intended update names a key both lists have, so it is neither created nor deleted |
| VariableDiff.IntendedUpdateSendsNewValue | src/pre-release-hook.ts:182-192 | on A: "old" → "new" the intended update sends "new" |
| PreReleaseHook.NameMatches | src/pre-release-hook.ts:218-220 | the filter's test, lower-cased `includes`; `FirstOrCreateEnvironment`, `NoQa` and `UatMatches` state its use |
| PreReleaseHook.FirstOrCreateEnvironment | src/pre-release-hook.ts:216-225 | an existing environment is used exactly when some listed name contains the stage name case-insensitively, and it is the first such; otherwise `(name, type)` is created, also when the listing is undefined |
| PreReleaseHook.NoQa | src/pre-release-hook.ts:218-220 | a name without the letter q never matches the stage "qa" |
| PreReleaseHook.EnvironmentLookupExamples | src/pre-release-hook.ts:216-225 | stage "uat" picks "My App UAT" from ["My App UAT", "My App Production"]; stage "qa" asks for `("qa", Test)` to be created |
| PreReleaseHook.QaLookup | src/pre-release-hook.ts:216-225 | in a listing none of whose names holds the letter q, no environment matches stage "qa", so `("qa", type)` is created |
| PreReleaseHook.IsSnapshotSource | src/pre-release-hook.ts:81-83 | the loop's skip test negated: a listed environment with a uuid and the source type; `SnapshotSources` states the environments it admits |
| PreReleaseHook.SnapshotKey | src/pre-release-hook.ts:90 | the key `repoUuid~repoName~envName`; `SnapshotNameRoundTrip` states that its file name parses back into the three parts |
| PreReleaseHook.SnapshotFileName | src/pre-release-hook.ts:90-93 | `repoUuid~repoName~envName.json`; `SnapshotNameRoundTrip` states that it can be parsed back, `WrittenStageShort` what `splitFullName` reads from it |
| PreReleaseHook.SnapshotSources | src/pre-release-hook.ts:80-83 | the environments read are exactly the listed ones with a uuid and the source type, never more than listed |
| PreReleaseHook.SnapshotSourceEnvironments | src/pre-release-hook.ts:80-95 | the loop reads exactly the listed environments with a uuid and the source type, in order, and writes one file `repoUuid~repoName~envName.json` per environment read, only when `writeToFile` is set |
| PreReleaseHook.ParseAll | src/pre-release-hook.ts:107 | mapping `splitFullName` over the listing throws exactly when some name has no `~`, and otherwise parses each name |
| PreReleaseHook.IsSourceFile | src/pre-release-hook.ts:109 | the test of `find`: field 2 is the source type and field 1 the source repository; `Find` and `SourceFilePath` state its use |
| PreReleaseHook.Find | src/pre-release-hook.ts:108-110 | `find` returns the first parsed name whose second field is the source repository and third the source type, or nothing when none is |
| PreReleaseHook.SourceFilePath | src/pre-release-hook.ts:106-119 | throws exactly when a name has no `~`; stops when no name passes the test; otherwise reads `readFromFile` when it is non-empty and otherwise the first passing file, as the bare name the directory listing returned (without the `./repo-dump/` folder) |
| PreReleaseHook.WrittenSnapshotNameParse | src/pre-release-hook.ts:90-93 | for a repository uuid without `~` and a repository name without space, `~` or ".json", a written snapshot name parses with an empty stage and the repository name as application name |
| PreReleaseHook.WrittenStageShort | src/pre-release-hook.ts:90-93 | for a repository uuid without `~`, the stage `splitFullName` reads from a written snapshot name is empty or shorter than the repository name, and empty when that name has no space |
| PreReleaseHook.WrittenSnapshotsNeverChosen | src/pre-release-hook.ts:106-115 | for a non-empty source repository name, no snapshot written for a repository name that has no space or is no longer than the source's is chosen (repository uuids without `~`); in particular the source repository's own snapshots never are, and a directory of such files makes `run` stop |
| PreReleaseHook.SpacedRepositorySnapshotChosen | src/pre-release-hook.ts:90-110 | the snapshot written for a repository named `R T`, where `T` is a type name, `R` has no space or `~`, the name holds no `.json` and the uuid no `~`, is chosen and read for source repository `R` of type `T` |
| PreReleaseHook.OtherRepositorySnapshotChosen | src/pre-release-hook.ts:90-110 | the snapshot written for repository "api Production" is chosen, and read, for source repository "api" of type Production: the restriction of `WrittenSnapshotsNeverChosen` is needed |
| PreReleaseHook.ParseSnapshotName | src/pre-release-hook.ts:90-93 | a parsed snapshot name is rebuilt from its three parts |
| PreReleaseHook.SnapshotNameRoundTrip | src/pre-release-hook.ts:90-93 | the written name of an environment parses back into its repository uuid, repository name and environment name |
| PreReleaseHook.IsIntendedSourceFile | src/pre-release-hook.ts:108-110 | the corrected test: the name parses as a written snapshot of the source repository and environment name; `FindIntendedSourceFile` and `WrittenSnapshotChosen` state its use |
| PreReleaseHook.FindIntendedSourceFile | src/pre-release-hook.ts:108-110 | returns the first file that is a snapshot of the source repository and environment name, or nothing when none is |
| PreReleaseHook.WrittenSnapshotChosen | src/pre-release-hook.ts:106-117 | with the intended reader, a written snapshot of the source stage is found, and the file found is one of that stage |
| Util.SplitFullName | src/util.ts:3-9 | throws exactly when the name has no `~`; otherwise returns four fields, the fourth the input unchanged |
| Util.NameFields | src/util.ts:5-7 | the `replace`/`indexOf`/`substr` chain on the piece after the first `~` is the reference cut at the first space of that piece with its first ".json" dropped |
| Util.SplitAtFirstSpaceAt | src/util.ts:6-7 | the reference cut at the first space yields the text before and after it |
| Util.SplitAtFirstSpaceNone | src/util.ts:6-7 | without a space the reference cut finds nothing |
| Util.SubstrCutIsFirstSpaceCut | src/util.ts:6-7 | the `indexOf`/`substr` chain gives stage = text before the first space and app = text after it; without a space, stage `""` and app the whole segment |
| Util.SplitFullNameFields | src/util.ts:4-8 | the first field is the text before the first `~`; stage and app come only from the segment up to the second `~`, after its first ".json" is dropped; anything after a second `~` is discarded |
| Util.SplitFullNameOneTilde | src/util.ts:4-8 | the same for a name with a single `~` |
| Util.DropJsonSuffix | src/util.ts:5 | dropping the first ".json" of `x + ".json"` leaves `x` when `x` has none |
| Util.RoundTrip | src/util.ts:1-8 | for an id without `~`, a stage without space, `~` or ".json" and an app without `~` or ".json", `id~STAGE APP.json` parses into `[id, STAGE, APP, name]` |
| Util.TestFileCase | src/util.spec.ts:5-11 | `{8fbe…}~PRODUCTION Client Portal.json` parses into `{8fbe…}`, `PRODUCTION`, `Client Portal` and the input |
| App.Splice | src/app.ts:59-61 | `splice(i, 1)` removes the element at `i` when `i` is an index, keeping the elements before and after it in their order, and otherwise changes nothing |
| App.ScanStep | src/app.ts:56-62 | one iteration of the page loop; `ScanGrows`, `ScanFindsOnlyWanted` and `ScanWithoutMatches` state what iterations do |
| App.ScanPrefix | src/app.ts:55-63 | the page loop after its first `n` iterations; `ScanGrows`, `ScanFindsOnlyWanted`, `ScanFindsDistinct` and `FilterRepositories` state what it does |
| App.FilterPages | src/app.ts:50-75 | the search over the page and the later responses; `FilterSettles`, `NoRequestWhenDone` and `SearchFindsAtMostWanted` state how it settles |
| App.ScanGrows | src/app.ts:55-63 | over the page loop `found` only grows by appending, at most one per repository, earlier entries unchanged; `projects` never gains a name and loses at most one per repository appended |
| App.ScanFindsOnlyWanted | src/app.ts:55-58 | every repository appended has a name that was in `projects`, and `projects` never gains a name |
| App.ScanWithoutMatches | src/app.ts:57 | a page without wanted names changes neither list |
| App.FilterSettles | src/app.ts:50-75 | the search returns `found` only when `projects` ended empty and `undefined` when names remain; `found` keeps its earlier entries, `projects` never grows, and every repository added was wanted |
| App.ScanFindsDistinct | src/app.ts:55-63 | when the names on a page are distinct and none was found before, the repositories a scan appends have distinct wanted names and come from the page |
| App.ScanAppendsFromPage | src/app.ts:55-63 | the scan only appends to `found`, and what it appends are repositories of the part of the page it has gone through |
| App.FilterFindsDistinct | src/app.ts:50-75 | when no repository name is listed twice over the responses, the repositories the search appends have distinct names, all of them wanted |
| App.SearchFindsAtMostWanted | src/app.ts:50-75 | when no repository name is listed twice over the responses, the search appends at most as many repositories as names are wanted |
| App.NoRequestWhenDone | src/app.ts:65-69 | another page is requested only when names remain and the page has `next` |
| App.FilterRepositories | src/app.ts:50-75 | the loops over pages and repositories compute the search's specification, and so settle as `FilterSettles` states |
| App.GetAllRepositories | src/app.ts:35-44 | returns `[]` when the first page is missing or has no `values`, otherwise the result of the search with `found` empty, whose repositories all were wanted and, when no name is listed twice, number at most `projects.length` |
| App.SpliceByPageIndex | src/app.ts:59-61 | `projects` ["A", "B"] and the single page [B, A]: only B is found, "B" stays wanted, and the search returns `undefined` |
| App.RepeatedNameFoundAgain | src/app.ts:55-63 | `projects` ["A"], the page [X, A, A] with `next` and then [A]: the search returns A three times |
| App.RemoveName | src/app.ts:59-61 | removing a wanted name takes exactly one occurrence of it out of the list |
| App.ScanStepIntended | src/app.ts:56-62 | the corrected iteration, which removes the matched name rather than the page index; `IntendedScanConserves` and `IntendedScanFindsEveryWanted` state its effect |
| App.ScanIntended | src/app.ts:55-63 | the corrected page loop; `IntendedScanConserves`, `IntendedScanFindsEveryWanted`, `IntendedScanLeavesOnlyUnlisted` and `IntendedScanFoundBound` state what it does |
| App.IntendedScanConserves | src/app.ts:55-63 | with the name removed, the names still wanted plus the names found are the names wanted at the start |
| App.IntendedScanFindsEveryWanted | src/app.ts:55-63 | with the name removed, every wanted name on the page is found |
| App.IntendedScanLeavesOnlyUnlisted | src/app.ts:55-63 | with distinct names, no name left wanted is on the page |
| App.IntendedScanFoundBound | src/app.ts:55-63 | with the name removed, a scan appends at most as many repositories as names were wanted, however often a name is listed |
| App.IntendedScanRepeatedExample | src/app.ts:55-63 | with the name removed, the page [X, A, A] finds A once for `projects` ["A"] |
| App.IntendedScanExample | src/app.ts:55-63 | on ["A", "B"] and [B, A] the intended scan finds both and empties `projects` |

## Left out

- HTTP client and Bitbucket API calls (src/bitbucket.service.ts): their responses are inputs and the calls are returned as records.
- `App.run`, src/post-release-hook.ts and index.ts: orchestration of remote calls; the `Promise.all` fan-out, its concurrency and the order in which calls complete are not modelled.
- File I/O and `JSON.parse` in `run` and `migrateEnvironmentVariables`: the directory listing and the parsed variable arrays are inputs; writing a file is modelled as the returned file name.
- src/config.ts: configuration read from the environment; `Config.PROJECTS` is the `projects` input.
- `App.GetAllRepositories`: the module-level `Config.PROJECTS` array is mutated in place by the search, so a second call in the same process starts from what the first left; the model takes `projects` as a value and returns what is left without carrying it between calls.
- `App.FilterRepositories`: the page number `result.page + 1` is not computed (its value depends on the runtime type of `page`); the next page is the next element of the supplied sequence, and a missing response ends it.
- `VariableDiff.SameKeyAndValue`: `localeCompare` is modelled as string equality; locale-dependent collation that equates different strings is not modelled.
- `PreReleaseHook.FirstOrCreateEnvironment`: a `listEnvironments` response without `values` makes `.filter` throw a TypeError (src/pre-release-hook.ts:218); the model takes the `values` or their absence and does not represent that rejection.
- `PreReleaseHook.SnapshotSourceEnvironments`: `run` enters the snapshot loop only when `readFromFile` is falsy (src/pre-release-hook.ts:60); the condition is the caller's and the method models the loop itself.
- `JsString.ToLower`: `toLowerCase` is modelled for ASCII letters only; Unicode case mapping (which can also change the length) is not modelled.
- `PreReleaseHook.NameMatches`: `toLowerCase` is modelled for ASCII letters only; Unicode case mapping is not modelled.
- `PreReleaseHook.SourceFilePath`: the chosen path is the bare name the directory listing returned, and `readFile` at src/pre-release-hook.ts:149 resolves it against the working directory rather than `./repo-dump/`; file-system resolution is not modelled, so the model returns that bare name.
- The snapshot loop's `listEnvironments`, per-repository fan-out and flattening (src/pre-release-hook.ts:61-78): the flattened listing is an input, with a missing entry for a repository whose listing is undefined; the calls to `getAllRepositories` on the hook class (src/pre-release-hook.ts:61, 103) are not modelled.
- The loop over target repositories (src/pre-release-hook.ts:120-122) applies the diff once per repository; the model states the diff for one repository.
- `dryRun` is only declared in the configuration type (src/pre-release-hook.ts:27) and `overwriteSecuredVariables` is destructured at src/pre-release-hook.ts:54 but never read, so the code has no counterpart to either; `VariableDiff.GuardedUpdates` models what the documentation of the latter describes.
- src/interfaces/*.ts are sample payloads; only `name`, `uuid`, `slug`, `environment_type.name` and the variable fields `key`, `value`, `secured`, `uuid` are kept.
- wallaby.js is test-runner configuration.

## Findings

| source | as written | input that shows it | evidently intended | confidence | as-written member | corrected member |
|---|---|---|---|---|---|---|
| src/pre-release-hook.ts:90-110 | snapshots are written as `repoUuid~repoName~envName.json`, but the selection parses names as `{guid}~STAGE APP.json` and compares the stage field with the repository name | repository "api", environment "Production": the file `u~api~Production.json` parses with stage "" and app "api", so no file is chosen for source repository "api"; the source repository's own snapshots are never chosen, while the snapshot of repository "api Production" is chosen for "api" | the reader splits the written key back into repository uuid, repository name and environment name and chooses the source stage's file | not executed; high | PreReleaseHook.WrittenSnapshotsNeverChosen | PreReleaseHook.WrittenSnapshotChosen |
| src/pre-release-hook.ts:177-192 | the update set is taken from the target list and each update sends the target variable's own value, or "dummy" when it has none | source A="new", target A="old": the only call updates A to "old", leaving it unchanged | a key both lists hold with different values is updated to the source value | not executed; medium | VariableDiff.ChangedValueUpdatedToOldValue | VariableDiff.IntendedUpdatesComplete |
| src/pre-release-hook.ts:177-194 | every target variable that no source variable matches by key and value is updated with its own value, or "dummy" when it has none, secured or not; the API lists secured variables without a value | a secured target T listed without a value, deletion off, and either no T in the source or T = "x": the only call updates T to "dummy", destroying the secret | an update that involves a secured variable is skipped unless `overwriteSecuredVariables` is set, and then sends `"dummy"` (src/pre-release-hook.ts:28-31, :100) | not executed; high | VariableDiff.SecuredTargetOverwrittenWithPlaceholder | VariableDiff.GuardedUpdatesKeepSecrets |
| src/app.ts:59-61 | a match splices `projects` at the repository's index on the page | `projects` ["A", "B"], one page [B, A] without `next`: "A" is removed when B matches, A is never found, and the search returns `undefined` | the matched name is removed from `projects`, so every wanted repository on the page is found | not executed; high | App.SpliceByPageIndex | App.IntendedScanFindsEveryWanted |
| src/app.ts:55-63 | a repository listed again at a page index past the end of `projects` is appended again, because that `splice` removes nothing | `projects` ["A"], the page [X, A, A] with `next`, then the page [A]: the search returns [A, A, A] for one wanted name | each wanted name yields at most one repository, so the search returns at most `projects.length` repositories | not executed; low (it needs a listing that repeats a name) | App.RepeatedNameFoundAgain | App.IntendedScanFoundBound |
