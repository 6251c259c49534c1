# npm dependency list: a Dafny model of the aggregation core

`index.js` takes a list of application directories. For each one it reads the
application's `package.json` and merges its `dependencies` with its
`devDependencies`. Identifiers in the internal `@minus5` namespace are dropped.
The rest are collected into one list. The list keeps each identifier's first
appearance, in order. For every newly collected identifier, the program reads the
installed package's own `package.json` under that application's `node_modules`. It
records the name, version and description from that file. The result is an HTML
table with one row per collected identifier.

The model has these modules:

- `Seqs`: sequence helpers. It covers `filter`, "not yet seen", duplicate-freedom, first occurrences
  (`Dedup`), relative order, and concatenation of per-element lists (`FlatMap`).
- `Results`: `Option`, and the two fatal errors as a `Result`.
- `Js`: a JavaScript plain object as an ordered key list plus a map. It includes the object
  spread `{ ...a, ...b }`.
- `Manifest`: `getDependencies`.
- `Metadata`: `getDependenciesDescriptions`, `getDependenciesVersions` and
  `getDependenciesNames`. All three are built on one loop, `FieldMap`.
- `Aggregate`: the loop of `generateHtml` as a pure function. `Step` handles one application
  and `Run` handles the prefix of the list up to it. The module also defines the table rows.
- `History`: all-input theorems about `Run`. They compare it with an independent description
  of what it should collect. That description concatenates the applications' declared lists,
  keeps first occurrences, and takes metadata from the first application that declares each
  identifier.
- `Generate`: `generateHtml` written as the program writes it. It is a loop with mutable
  accumulators, and it is proved equal to `Run`.

File reads are parameters:

- `ManifestReader` maps a path to the parsed manifest. It gives `None` when the file cannot be
  read or parsed.
- `PackageReader` maps a `(dependency, lib)` pair to the installed package's metadata. It stands
  for `readPackageJson`, including the `npm install` it may trigger.

A `None` from either reader rejects the whole run, as the awaited promise does. The model's
error records which read failed: the manifest path of an application, or a dependency and the
application it was read under. It is not the promise's rejection value (see "## Left out").

The `minus5Dependencies` list is computed and returned by `GetDependencies`, but the loop never
uses it.

Four behaviours of `index.js` that the model keeps:

- An absent description stays absent (`None` in the row; the template prints `undefined`), and is
  not replaced by an empty cell.
- Each new identifier's `package.json` is read three times, once per helper.
- Any unreadable file rejects the whole run.
- An empty application list gives an empty table.

## Model

| member | source | states |
|---|---|---|
| Js.CopyProperties | index.js:12 | Copying the listed properties into an object appends only the keys it lacked. Copied keys take the new values and other keys keep theirs. |
| Js.CopyAll | index.js:12 | `{ ...a }` copies `a` exactly: the same keys in the same order, with the same values. |
| Js.Spread | index.js:12 | `{ ...a, ...b }` has a's keys, then b's missing keys, in order. b's value wins on a shared key, and a's value stays otherwise. |
| Manifest.StartsWith | index.js:15-18 | `startsWith` holds exactly when the prefix is no longer than the string and agrees with it character by character. |
| Manifest.StartsWithAppend | index.js:15-18 | A string starts with a prefix exactly when it is that prefix followed by some string. |
| Manifest.OrEmpty | index.js:11-12 | An absent field spreads as `{}`; a present one as itself. What that means for the merge is stated by AbsentDependencies and AbsentDevDependencies. |
| Manifest.AbsentDependencies | index.js:11-12 | Without `dependencies`, `allDependencies` is a copy of `devDependencies`: the same keys in the same order, with the same values. |
| Manifest.AbsentDevDependencies | index.js:11-12 | Without `devDependencies`, `allDependencies` is a copy of `dependencies`: the same keys in the same order, with the same values. |
| Manifest.GetDependencies | index.js:9-25 | `allDependencies` is the union of both fields, and the devDependencies value wins. The `@minus5` list and the other list partition its keys: each key lands in exactly one list, sizes add up, and neither list has duplicates. |
| Manifest.Partition | index.js:13-19 | On a duplicate-free key list, the two `startsWith("@minus5")` filters select exactly the matching and the non-matching keys, and together they lose nothing. |
| Manifest.PartitionSize | index.js:14-19 | The two filters' lengths add up to the key count. |
| Manifest.PartitionKeepsOrder | index.js:13-19 | Both filtered lists keep the relative order of `Object.keys(allDependencies)`. |
| Manifest.OtherDependenciesAreOther | index.js:17-19 | No identifier in `otherDependencies` starts with `@minus5`. |
| Metadata.FieldMap | index.js:43-68 | The loop succeeds exactly when every listed dependency is readable. Its map then has exactly the listed identifiers as keys, each with the field read for it. Otherwise the error names the first unreadable dependency in list order. |
| Metadata.FieldMapLocal | index.js:45-47 | The result depends only on the reader's answers for the listed dependencies under `lib`. |
| Metadata.Descriptions | index.js:43-50 | Same as FieldMap, for the `description` field, which may be absent: success iff every listed dependency is readable, exactly the listed keys, and on failure the first unreadable dependency in list order. |
| Metadata.Versions | index.js:52-59 | Same as FieldMap, for `version`, including the first unreadable dependency on failure. |
| Metadata.Names | index.js:61-68 | Same as FieldMap, for `name`, including the first unreadable dependency on failure. |
| Aggregate.ManifestPath | index.js:78-80 | The manifest path is the application directory followed by `/package.json`. |
| Aggregate.ManifestPathInjective | index.js:78-80 | Two applications have the same manifest path exactly when they are the same, so a manifest error identifies the application. |
| Aggregate.Fresh | index.js:81-83 | The kept identifiers are exactly the application's other dependencies not yet accumulated, without duplicates. |
| Aggregate.Step | index.js:76-97 | An unreadable manifest rejects with its path. An application with nothing new is skipped and gives back the accumulators unchanged, whatever the package reader would answer. Otherwise the step succeeds exactly when all new identifiers are readable. On success it appends them and adds exactly their metadata. On failure it names the first unreadable new identifier in `otherDependencies` order, every earlier one being readable. The loop invariant is preserved. |
| Aggregate.Collect | index.js:85-97 | Merging the three maps for the new identifiers succeeds iff all of them are readable. On success it extends each map by exactly those keys, and existing entries are untouched. On failure the error names the first unreadable identifier in list order. |
| Aggregate.Merge | index.js:85-97 | `[...dependencies, ...otherDependencies]` is the old list followed by the new identifiers. Each `{ ...m, ...fromThisApp }` has the keys of both maps; the helper's value wins on a shared key and every other entry is kept. |
| Aggregate.Merged | index.js:86-97 | Spreading the helpers' maps into the accumulators appends the new identifiers and gives them the metadata read under this application. |
| Aggregate.Run | index.js:70-99 | After any prefix of the applications, the accumulated list has no duplicates and the three maps have exactly its identifiers as keys. |
| Aggregate.RunInvariants | index.js:76-85 | A successful run read every application's manifest and collected no `@minus5` identifier. |
| Aggregate.RowsOf | index.js:117-127 | One row per identifier, in sequence order, each built from that identifier's map entries. |
| Aggregate.Rows | index.js:117-127 | The table has as many rows as accumulated identifiers. |
| History.Declarer | index.js:76-88 | The application whose `lib` path is used for an identifier is one of the listed applications. |
| History.DeclarerSnoc | index.js:76-85 | Adding an application keeps the declarer of every identifier already declared. The new application becomes the declarer of the identifiers it is first to declare. |
| History.DeclaredMembers | index.js:76-83 | An identifier is declared exactly when some application's other-dependency list contains it. |
| History.DeclarerIsFirst | index.js:81-88 | The declarer is the earliest application whose list contains the identifier. |
| History.StepExplains | index.js:76-97 | One successful step turns the expected accumulators of the earlier applications into those of the extended list. |
| History.RunReport | index.js:70-99 | A successful run holds every declared identifier exactly once, in order of first appearance across the applications' lists. Each identifier carries the name, version and description read under its first declarer. |
| History.RunOrder | index.js:81-85 | Two accumulated identifiers are in the same relative order as in the concatenated declared lists. |
| History.StepOkIff | index.js:78-97 | A step from the expected accumulators succeeds iff the manifest is readable and every identifier first declared here is readable under this application. |
| History.RunOkIff | index.js:70-99 | A run succeeds iff every manifest is readable and every declared identifier is readable under its first declarer. |
| History.RunError | index.js:70-99 | A failed run names one of two things: an unreadable manifest of a listed application, or a declared identifier that its first declarer cannot read. |
| History.RunLocal | index.js:76-97 | The outcome depends on the package reader only at each declared identifier's first declarer. Skipped applications and already-seen identifiers cause no lookup that matters. |
| History.RunAppendAfterError | index.js:76-99 | Once a read has failed, later applications change nothing. |
| History.RunAppendCovered | index.js:81-84 | Visiting applications that were already visited changes nothing. |
| History.Rerun | index.js:70-99 | Listing the applications twice gives the same outcome as listing them once. |
| History.RowsExplained | index.js:117-127 | Row i shows the metadata of the i-th identifier as read under its first declarer. |
| History.ReportRows | index.js:70-127 | The table of a successful run: one row per accumulated identifier, in order. Each row holds the name, version and description of that package read under its first declarer. |
| Generate.GenerateHtml | index.js:70-127 | The imperative loop followed by the row projection. It returns the rows of `Run` on success and `Run`'s error otherwise. |
| Generate.Accumulate | index.js:71-99 | The `for` loop with four mutable accumulators computes exactly `Run`. |
| Generate.Visit | index.js:77-97 | One pass of the loop body extends the run by one application. If that pass rejects, the whole loop rejects. |
| Generate.RunExtend | index.js:76-99 | The run over one more application is one `Step` from the run before it. A failing step is the outcome of the whole run. |
| Seqs.NoDupIndices | index.js:81-85 | The duplicate-freedom the loop keeps, defined element by element, is the same as distinct values at distinct positions. |
| Seqs.Filter | index.js:14-19 | `Array.prototype.filter`: keeps exactly the elements that satisfy the predicate, never more than there were. |
| Seqs.Unseen | index.js:81-83 | Keeps exactly the elements not in the seen list. |
| Seqs.FilterNoDup | index.js:14-19 | Filtering a duplicate-free list gives a duplicate-free list. |
| Seqs.FilterKeepsOrder | index.js:14-19 | Filtering keeps the relative order of the kept elements. |
| Seqs.UnseenNoDup | index.js:81-85 | The unseen part of a duplicate-free list is duplicate-free. |
| Seqs.Dedup | index.js:81-85 | First occurrences: the same elements as the input. |
| Seqs.DedupNoDup | index.js:81-85 | First occurrences have no duplicates. |
| Seqs.DedupAppend | index.js:81-85 | The first occurrences of `prefix + l` are those of `prefix` followed by the unseen part of `l`. This is the loop's `[...dependencies, ...otherDependencies]` step. |
| Seqs.DedupKeepsOrder | index.js:81-85 | First occurrences keep the relative order of the input. |

## Left out

- File I/O, `JSON.parse`, `fs.existsSync`, the `npm install` child process, `path.join` and
  `async`/`await` are not modelled. They are folded into the two reader parameters, so a read
  is a pure function of its arguments.
- The three helpers each read a dependency's `package.json` again, so one identifier is read
  three times. The model's reader is pure, so the three reads agree. A file that changes
  between reads, or a second read failing after the first succeeded, is not modelled.
- `console.log` calls are not modelled, nor is the literal HTML text around the rows. The
  model stops at the sequence of rows.
- An absent `description` is an `Option` in the row. The template prints `undefined` for it,
  not an empty cell. The model keeps the absence and does not render text.
- `main`, `writeFile` and the call `generateHtml(apps)` are not modelled. That call passes the
  array as a single rest argument, and this is outside the model.
- Property enumeration order is insertion order in the model. JavaScript's `Object.keys`
  lists integer-like keys (such as `"123"`) first, in ascending numeric order, and then the
  other keys in insertion order. Nothing in `index.js` or in JSON rules out such a dependency
  key: an npm alias like `"123": "npm:lodash@^4"` produces one. For manifests with such keys
  the program's order of `allDependencies`, and so of the report, differs from the model's.
- Only string-valued dependency entries are modelled. The `__proto__` key and inherited
  properties are not modelled.
- The rejection value of the run is not modelled. `Error` records which read failed, not what
  the program rejects with. A failing `npm install` (index.js:30) rejects with the child-process
  error; the model shows it as that application's first new identifier being unreadable. A
  `JSON.parse` failure (index.js:11, index.js:40) rejects with a `SyntaxError` that names no file;
  the model names the manifest path or the dependency.
- An installed package's `name` and `version` are taken to be present strings, and its
  `description` a string when present. The program stores whatever `packageJson.name` and
  `packageJson.version` hold (index.js:56, index.js:65), so a package.json without one of them
  prints `undefined` and the run goes on. The model cannot express that case.
- History.RunError: states that the reported error is a genuine failure of the run. It does
  not state that it is the first failure in visiting order.
