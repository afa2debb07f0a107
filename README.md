# Grunt build core: task lists, test-report steps and the server dependency closure

This Dafny project models the decision logic of the project's Grunt build.

- **`Tasks`** (tasks.dfy) covers the task registry of Gruntfile.js:
  - `serve` and `test` look their target up in a literal table. An absent or empty target selects `dev` or `dflt`. A key the table lacks gives no list at all.
  - `build` starts from a six-task base list. It pushes seven production steps unless the target is `dev` or `liveEdit`.
  - the `concurrent:debug` group and the alias tasks `start`, `dist`, `dev`, `default` and `liveEdit`.
  - a full expansion that replaces every queuing task by the tasks it queues, until only tasks that do their own work remain.
  - A task reference is a `TaskRef`, a name and an optional target. `Parse` and `Render` relate it to grunt's `name:target` strings.
- **`Report`** (report.dfy) covers the last two steps of `test:e2e`:
  - `trimJsonOutput` extracts the match of `/(\[\s+\{[\s\S]*\}\s+\]\s+\}\s+\]\s+\}\s+\])/` from the raw report. The match starts at the leftmost `[`-whitespace-`{`, and the greedy middle runs to the last tail that fits. It then replaces every `][` with `,`. No match is fatal.
  - `checkTestFailed` fails when `"status": "failed"` occurs in the report.
  - The report text is a parameter. The trimmed text is the result.
- **`Copy`** (copy.dfy) covers `getServerDependencies` of grunt-conf/copy.js:
  - It visits the root manifest's direct dependencies in order and skips names matching `/norman.*client/`.
  - For each kept name it sets `name/**/*` as a key of an accumulator object. It then sets the globs of the keys of that package's `peerDependencies` and `dependencies`.
  - The result is the accumulator's key list. A kept name without an installed manifest aborts.
  - `ServerDependencies` is the model as a function. `GetServerDependencies` is the loop, with an ordered key list and a seen-set, proved equal to that function.
- **`Text`** (text.dfy) holds JavaScript's `\s` class, line terminators and `indexOf`. **`Wrappers`** holds `Option`, `Result` and `Outcome`.

Inputs are values:
- the report file's contents;
- the root manifest;
- the installed package store, a map from package name to manifest.

Fatal failures are `Failure`/`Fail` values.

### Behaviour worth noting

- The test default key is `dflt` (Gruntfile.js:168, 170).
- `serve` and `test` index their table with the defaulted key as given (Gruntfile.js:141, 170). A key the table lacks gives no list (`None`). `Tasks.TestUnknownKey` states this.
- The report pattern is one greedy span (Gruntfile.js:148). It runs from `[`, whitespace, `{` to the last `}]}]}]` tail that has whitespace between its symbols.
  - A compact report such as `[{"a":1}]][{"b":2}]` has no whitespace after its `[`, so it ends in a pattern mismatch. `Report.NoWhitespaceNoMatch` states this.
- A root manifest without a `dependencies` object makes `Object.keys` throw (grunt-conf/copy.js:10). It is modelled as the error `NoDependencies`.

## Model

| member | source | states |
|---|---|---|
| Tasks.ParseRender | Gruntfile.js:180 | a reference written as `name:target` (as `'clean:' + target` builds one) reads back as the same name and target |
| Tasks.RenderParse | Gruntfile.js:164-168 | a reference string with at most one colon is written back unchanged after reading |
| Tasks.ParsePlain | Gruntfile.js:181 | a colon-free reference such as `less` or `watch` reads as that task with no target |
| Tasks.ParseOn | Gruntfile.js:168 | `name:target` with colon-free parts reads as the task `name` with target `target` |
| Tasks.DefaultKey | Gruntfile.js:175 | `target \|\| d`: an absent or empty target gives `d`; any other target is kept |
| Tasks.ServeTable | Gruntfile.js:121-140 | the `serve` table: the lists of `debug`, `dev` and `liveEdit` as written, none for any other key; `Tasks.Serve`, `Tasks.ServeDefaults` and `Tasks.ServeDebug` state its properties |
| Tasks.Serve | Gruntfile.js:120-141 | `serve` queues a list exactly when the defaulted key is `debug`, `dev` or `liveEdit` |
| Tasks.ServeDefaults | Gruntfile.js:126-141 | no target, the empty target and `dev` give one list; `liveEdit` gives the same list; it starts with `build:dev` |
| Tasks.ServeDebug | Gruntfile.js:103-125 | `serve:debug` is exactly `env:dev, concurrent:debug` and holds no `build`; the debug group is exactly `nodemon:debug, node-inspector:custom` |
| Tasks.ConcurrentGroup | Gruntfile.js:103-111 | `debug` is the only configured concurrent group |
| Tasks.TestTable | Gruntfile.js:163-169 | the `test` table: the lists of the five keys as written, none for any other key; `Tasks.Test`, `Tasks.TestDefault`, `Tasks.TestEndToEnd` and `Tasks.TestUnknownKey` state its properties |
| Tasks.Test | Gruntfile.js:162-171 | `test` queues a list exactly when the defaulted key is one of `server`, `client`, `e2e`, `e2e_ci`, `dflt` |
| Tasks.TestDefault | Gruntfile.js:168-170 | no target and the empty target queue `test:server, test:client` |
| Tasks.ServerSuite | Gruntfile.js:164 | `test:server` fully expands to `env:dev, mochaTest` |
| Tasks.ClientSuite | Gruntfile.js:165 | `test:client` fully expands to `env:dev, karma` |
| Tasks.TestFullExpansion | Gruntfile.js:164-170 | plain `test` fully expands to `env:dev, mochaTest, env:dev, karma` |
| Tasks.TestEndToEnd | Gruntfile.js:166-167 | `test:e2e` has six tasks, `protractor:e2e` third, then `trimJsonOutput` and `checkTestFailed` last; `test:e2e_ci` is empty |
| Tasks.TestUnknownKey | Gruntfile.js:163-170 | a non-empty key outside the five table keys queues nothing, and its reference has no full expansion |
| Tasks.BaseTasks | Gruntfile.js:179-186 | the base list has six tasks and starts with `clean:<key>` |
| Tasks.ProductionSteps | Gruntfile.js:189-195 | the seven production steps in push order: `ngAnnotate, exorcise, html2js, copy:dist, config-prod, cssmin, uglify`; `Tasks.BuildTasks` and `Tasks.BuildLength` state where they go |
| Tasks.BuildTasks | Gruntfile.js:174-199 | the build list starts with the six base tasks for the defaulted key; it has 6 tasks for `dev`/`liveEdit` and otherwise 13, ending with the seven production steps |
| Tasks.Build | Gruntfile.js:174-199 | the imperative build, base list then seven conditional pushes, yields exactly `BuildTasks(target)` |
| Tasks.BuildDefaults | Gruntfile.js:175-186 | no target and the empty target build `dev`; the base list is a prefix of every build |
| Tasks.BuildLength | Gruntfile.js:188-196 | 6 tasks if and only if the target is a development one, 13 if and only if it is not; `build:dist` is base plus production steps |
| Tasks.BuildFullExpansion | Gruntfile.js:179-196 | a build queues only tasks that do their own work, so it fully expands to its own list |
| Tasks.DefaultFullExpansion | Gruntfile.js:216 | plain `grunt` fully expands to the six tasks of `build:dev` |
| Tasks.Alias | Gruntfile.js:213-217 | exactly `start`, `dist`, `dev`, `default` and `liveEdit` are alias tasks |
| Tasks.Aliases | Gruntfile.js:213-217 | the lists of the five aliases, `default` and `dev` being the same |
| Tasks.StepOf | Gruntfile.js:120-217 | a task queues other tasks or is missing a list exactly when its name is one of the eight queuing tasks; every other task does its own work |
| Tasks.ExpansionDecreases | Gruntfile.js:120-217 | every task a queuing task queues has a lower rank, so full expansion ends |
| Tasks.FullExpand | Gruntfile.js:120-217 | a full expansion holds only tasks that do their own work |
| Tasks.FullExpandAll | Gruntfile.js:120-217 | a list has a full expansion exactly when each of its tasks has one |
| Tasks.LeavesExpandToThemselves | Gruntfile.js:120-217 | a list of tasks that do their own work expands to itself |
| Text.IndexOf | Gruntfile.js:157 | `indexOf` is -1 exactly when the text does not occur, and otherwise the index of its first occurrence |
| Report.OpenAtMeaning | Gruntfile.js:148 | the scan for `\[\s+\{` at `i` ends at `j` exactly when `s[i..j+1]` is `[`, whitespace, `{` |
| Report.SeparatedMeaning | Gruntfile.js:148 | for visible symbols, the scan for `}\s+]\s+...` from `p` ends at `e` exactly when the text there matches that sub-pattern |
| Report.LastTailGreatest | Gruntfile.js:148 | the tail chosen is the last one that fits below the bound |
| Report.FirstOpenLeast | Gruntfile.js:148 | the opening chosen is the first one with a tail after it |
| Report.MatchSpanChoice | Gruntfile.js:148 | no span is found exactly when no match exists; the start found is the leftmost; the tail found is the greediest for that start |
| Report.MatchSpan | Gruntfile.js:148 | a span found is a match of the pattern; `Report.MatchSpanChoice` states that it is the leftmost and greediest one and that none is found only when nothing matches |
| Report.Extract | Gruntfile.js:148 | extraction fails exactly when no span exists; the extracted text starts with `[` and ends with the tail's last symbol |
| Report.ExtractMeaning | Gruntfile.js:148 | extraction fails exactly when the pattern matches nowhere |
| Report.MatchAtMeaning | Gruntfile.js:148 | the scan finds exactly the text spans the regular expression describes |
| Report.ExtractLeftmostGreedy | Gruntfile.js:148 | the extracted text is the input slice from the leftmost match start to the end of the last tail for it |
| Report.NoWhitespaceNoMatch | Gruntfile.js:148 | a report without whitespace never matches |
| Report.ExtractClosesArray | Gruntfile.js:148 | the text the report pattern extracts starts with `[` and ends with `]` |
| Report.JoinArrays | Gruntfile.js:149 | the global replacement of `][` by `,`, scanning left to right; `Report.JoinArraysLength`, `JoinArraysNoJoin`, `JoinArraysIdentity`, `JoinArraysIdempotent` and `JoinArraysKeepsPlain` state its properties |
| Report.JoinArraysLength | Gruntfile.js:149 | the replacement shortens the text by one for each `][` replaced |
| Report.JoinArraysHead | Gruntfile.js:149 | the replacement is empty only for the empty text; its first character is `,` when the text starts with `][`, and the text's own first character otherwise |
| Report.JoinArraysNoJoin | Gruntfile.js:149 | the replaced text contains no `][` |
| Report.JoinArraysIdentity | Gruntfile.js:149 | a text without `][` is left unchanged |
| Report.JoinArraysIdempotent | Gruntfile.js:149 | replacing twice is replacing once |
| Report.JoinArraysKeepsPlain | Gruntfile.js:149 | the replacement neither creates nor removes an occurrence of a text with no `]`, `[` or `,` |
| Report.TrimJsonOutput | Gruntfile.js:145-150 | trimming fails, with a pattern mismatch, exactly when extraction fails |
| Report.TrimJsonOutputResult | Gruntfile.js:148-149 | a successful trim is the extracted text with each `][` replaced, shorter by their count and free of `][` |
| Report.CheckTestFailed | Gruntfile.js:155-160 | the check fails, with failures found, exactly when `"status": "failed"` occurs in the report |
| Report.TrimThenCheck | Gruntfile.js:145-160 | `trimJsonOutput` followed by `checkTestFailed` on the text it wrote, as `test:e2e` runs them; `Report.TrimThenCheckVerdict` states its outcomes |
| Report.TrimThenCheckVerdict | Gruntfile.js:145-160 | trim-then-check is a mismatch exactly when nothing matches, a failure exactly when the extracted text holds the failed marker, and a pass otherwise |
| Copy.Glob | grunt-conf/copy.js:17 | a glob is the package name followed by `/**/*` |
| Copy.GlobInjective | grunt-conf/copy.js:17 | distinct names have distinct globs |
| Copy.ClientFromMeaning | grunt-conf/copy.js:12 | the scan for `.*client` from `p` succeeds exactly when `client` starts at or after `p` with no line terminator before it |
| Copy.NormanFromMeaning | grunt-conf/copy.js:12 | the scan for `norman` from `i` succeeds exactly when some `norman` at or after `i` is followed by a `.*client` match |
| Copy.IsClientPackage | grunt-conf/copy.js:12-15 | `clientRegExp.test(name)` as a scan over the name; `Copy.IsClientPackageMeaning` states that it decides the pattern |
| Copy.IsClientPackageMeaning | grunt-conf/copy.js:12-15 | a name is skipped exactly when `/norman.*client/` matches it |
| Copy.NormanTooLate | grunt-conf/copy.js:12-15 | a name in which every `norman` starts too late for a `client` to follow is kept |
| Copy.ShortNameKept | grunt-conf/copy.js:12-15 | a name shorter than twelve characters is kept |
| Copy.CommonClientExcluded | grunt-conf/copy.js:12-15 | `norman-common-client` is skipped |
| Copy.ClientPrefixKept | grunt-conf/copy.js:12-15 | `client-norman` is kept |
| Copy.Insert | grunt-conf/copy.js:17 | setting a key appends it when new and leaves the key list alone when present |
| Copy.Dedup | grunt-conf/copy.js:11-37 | the key list of an object whose keys were set in a given order; `Copy.DedupDistinct`, `DedupMembers`, `DedupPrefix` and `DedupInDiscoveryOrder` state its properties |
| Copy.DedupDistinct | grunt-conf/copy.js:37 | the key list has no repeats |
| Copy.DedupMembers | grunt-conf/copy.js:37 | the key list holds exactly the keys ever set |
| Copy.DedupPrefix | grunt-conf/copy.js:37 | setting further keys never moves an earlier key |
| Copy.DedupInDiscoveryOrder | grunt-conf/copy.js:37 | the keys are listed in the order of their first setting |
| Copy.Discover | grunt-conf/copy.js:13-36 | every glob the outer loop sets, repeats included, in the order it sets them, or the error of the first kept name without a manifest; `Copy.DiscoverFailure`, `DiscoverComplete` and `DiscoverSound` state its properties |
| Copy.ServerDependencies | grunt-conf/copy.js:7-38 | the key list of the discovered globs, or the error; `Copy.ServerDependenciesComplete`, `Sound`, `Ordered` and `Failure` state its properties |
| Copy.DiscoverFailure | grunt-conf/copy.js:13-19 | the loop aborts exactly when some kept direct dependency has no manifest |
| Copy.DiscoverComplete | grunt-conf/copy.js:13-36 | after the loop, each kept direct dependency has a manifest, and its glob, its peers' globs and its dependencies' globs were set |
| Copy.DiscoverSound | grunt-conf/copy.js:13-36 | every glob set is that of a kept direct dependency or of a peer or dependency of one |
| Copy.DiscoverFirstMissing | grunt-conf/copy.js:13-19 | the error names the first kept direct dependency without a manifest |
| Copy.DiscoverPrefixFailure | grunt-conf/copy.js:13-19 | once an early direct dependency aborts the loop, the later ones change nothing |
| Copy.ServerDependenciesComplete | grunt-conf/copy.js:7-38 | the result holds the glob of every kept direct dependency, of each of its peers and of each of its dependencies |
| Copy.ServerDependenciesSound | grunt-conf/copy.js:7-38 | every entry is the glob of a kept direct dependency or of a peer or dependency of one; third-level names never appear |
| Copy.ServerDependenciesOrdered | grunt-conf/copy.js:7-38 | the result has no repeats, is the key list of the globs in discovery order, and lists each glob at its first discovery |
| Copy.ServerDependenciesFailure | grunt-conf/copy.js:7-38 | the result is a failure exactly when the root lacks `dependencies` or a kept direct dependency has no manifest |
| Copy.DiscoverIgnoresExcluded | grunt-conf/copy.js:15-19 | the manifests of skipped names are never read |
| Copy.ServerDependenciesIgnoresExcluded | grunt-conf/copy.js:15-19 | changing or removing the manifest of a skipped name does not change the result |
| Copy.DiscoverIgnoresDevDependencies | grunt-conf/copy.js:13-36 | the loop reads only `peerDependencies` and `dependencies` of the packages |
| Copy.ServerDependenciesIgnoresDevDependencies | grunt-conf/copy.js:10-36 | no `devDependencies`, of the root or of any package, affect the result |
| Copy.OnlyClientDependency | grunt-conf/copy.js:13-15 | a root whose only dependency is `norman-common-client` copies nothing, with or without its manifest |
| Copy.TwoLevelsOnly | grunt-conf/copy.js:13-37 | for a kept `a` with peer `p` and dependency `d`, where `d` depends on `e`, the result is exactly the globs of `a`, `p`, `d`; `e` is absent |
| Copy.SharedPeerOnce | grunt-conf/copy.js:23-26 | two direct dependencies sharing a peer list it once, at its first discovery; a second-level name is not filtered |
| Copy.ClientPeerExample | grunt-conf/copy.js:23-34 | `norman-x-client` matches the client pattern, so `SharedPeerOnce` with it as peer `c` shows a client package included at the second level |
| Copy.SetGlobs | grunt-conf/copy.js:23-34 | one inner `forEach` turns the key list of the globs set so far into that of the globs set so far plus the globs of the names |
| Copy.SetContribution | grunt-conf/copy.js:17-35 | one kept name adds its own glob, then its peers', then its dependencies' |
| Copy.VisitDirect | grunt-conf/copy.js:13-36 | one outer iteration skips a client package, reports a missing manifest exactly for a kept name without one, and otherwise adds the name's contribution |
| Copy.MissingManifestFails | grunt-conf/copy.js:19 | a kept direct dependency without a manifest met by the loop makes the whole computation fail with its name |
| Copy.GetServerDependencies | grunt-conf/copy.js:7-38 | the loop over the direct dependencies, with accumulator keys and seen-set, returns exactly `ServerDependencies(root, store)` |

## Left out

- File reads and writes, `console.log` and `grunt.fail.fatal`'s exit code are left out. The report text, the root manifest and the installed store are parameters, and fatal failures are error values.
- Running the queued tasks is left out: grunt's executor, fail-fast order, `wait:test` timing, `express-keepalive` and the concurrent running of `concurrent:debug`. They belong to an external executor; only list contents and group membership are modelled.
- `config-prod` (Gruntfile.js:202-210) is left out because it only creates directories and copies a file.
- `grunt.initConfig`'s plugin settings, plugin loading, `notify_hooks`, the LESS glob list and the static `html`, `dev` and `dist` copy lists are left out. They are configuration handed to plugins, with no decision logic.
- Grunt finds a task by the longest colon-separated prefix that names a registered task, and it supports `\:` escapes. The model reads the first field as the name and the second as the target. `Tasks.Parse` drops any further fields, which grunt would pass as extra arguments.
- `Tasks.StepOf`: a table task handed a key its table lacks runs `grunt.task.run(undefined)`. The model does not say what grunt does with that. It is modelled as the step `Missing`, which has no full expansion.
- Tasks.Serve, Tasks.Test: a target such as `constructor` would find an inherited member of a JavaScript object literal. JavaScript prototype lookups are not modelled, and every key outside the table is absent.
- A manifest's dependency objects are their key lists in insertion order. JavaScript lists integer-like keys first, and version ranges are never read; neither is modelled.
- Strings are sequences of characters, not UTF-16 code units. The regular expressions never depend on the difference, and their `\s` class is JavaScript's set of whitespace characters.
- No general regular expression engine is modelled. Each of the two patterns is a dedicated scan, and a lemma relates it to the pattern as a relation.
