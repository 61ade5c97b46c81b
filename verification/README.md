# Entry-table builder of the asset bundler configuration

The repository's bundler configuration (`webpack.config.js`) writes one piece of
logic of its own: it builds the `entries` object that names the bundles. It walks
a fixed category table (`js` → `js`, `style` → `scss`, `css`). For each extension it
asks glob for the files `**/*.ext` under `./app/assets/_dev/<category>/`, skipping
anything the pattern `**/_*` matches. Each file's entry name is its relative name
with the trailing `.ext` cut off by a regular expression. The file's resolved path
is pushed onto the list of that name, and the list is created on first use.

This project models that builder in Dafny and proves what it promises.

- `Text` (`text.dfy`): suffixes, base names (`LastSegment`), ECMAScript line terminators.
- `Glob` (`glob.dfy`): the directory scan as an input. A `Listing` maps a
  (category, extension) pair to the names the filesystem yields for
  `**/*.ext`, in discovery order. An absent pair is a missing directory. The
  model applies the ignore pattern `**/_*` itself (`Ignored`, `Sync`).
- `Naming` (`naming.dfy`): `StripExtension` is the regular expression
  `"." + ext + "$"` with its unescaped dot, on Unicode characters rather than
  UTF-16 code units (see Left out). `ResolvePath` is the category directory
  joined with the relative name.
- `Entries` (`entries.dfy`): the matched-file record `Found`, the loop body `Add`,
  and the fold `Build` over matched files. Also an independent reference
  definition (`PathsNamed`, `Reference`) and the path count `TotalPaths`.
- `Discovery` (`discovery.dfy`): the category table `Directory` and the nested
  loops flattened into `Scan`. `EntriesOf` is the resulting table. The loops
  are also written imperatively (`BuildEntries`, `AddCategory`,
  `AddGlobResult`) and proved equal to the fold. Here are the end-to-end
  properties: keys, ordering, exactly-once, ignore pattern and scenarios.
- `ObjectKeys` (`object_keys.dfy`): the table as a plain JavaScript object
  literal, which inherits keys from `Object.prototype` (see Findings).

The scan is an input, and equal listings give equal tables because `EntriesOf`
is a function. Any non-determinism comes only from the filesystem's order.

## Model

| member | source | states |
|---|---|---|
| `Naming.StripExtension` | webpack.config.js:26-27 | The entry name is a prefix of the file name. Only the regular expression's match is removed: the last (length of ext) + 1 characters, ending in ext. When the name ends in "." + ext, the entry name plus "." + ext is the file name again. |
| `Naming.StripDotted` | webpack.config.js:26-27 | A stem with "." + ext appended strips back to exactly that stem. |
| `Naming.StripExtensionUnescapedDot` | webpack.config.js:26-27 | For every stem, character and extension: the dot is unescaped, so any one character other than a line terminator in front of the extension is cut with it (`bundlejs` with extension `js` loses `ejs`). A line terminator there leaves the name unchanged. Glob never returns such names. |
| `Naming.ResolvePathInjective` | webpack.config.js:28 | Two (category, relative name) pairs with '/'-free category keys resolve to the same path only if both parts are equal. So files of different categories never share a path. |
| `Text.DottedSuffixUnique` | webpack.config.js:17 | No name ends in two different dot-free extensions. So the `scss` and `css` results of one category never share a file. |
| `Glob.Unignored` | webpack.config.js:24 | Exactly the names whose base name does not start with '_' are kept. The output is no longer than the input and introduces no duplicates. |
| `Glob.UnignoredAppend` | webpack.config.js:24 | Filtering keeps glob's order: the kept names of a concatenation are the kept names of each part, in sequence. |
| `Glob.Sync` | webpack.config.js:22-25 | A missing directory yields nothing. A name is returned iff the directory lists it and the ignore pattern does not match it. On a well-formed listing the result has no duplicates, and every name ends in "." + ext. |
| `Glob.IgnoredWithExtension` | webpack.config.js:24 | If an entry name would be ignored, the file it came from is ignored too. |
| `Entries.Add` | webpack.config.js:29-33 | The key set gains the name. An existing list gets the path appended at its end, with earlier paths kept in order. A new name gets exactly the one-element list. All other keys are unchanged. |
| `Entries.Build` | webpack.config.js:20-36 | The key set is exactly the set of entry names of the matched files, and no key maps to an empty list. |
| `Entries.PathsNamed` | webpack.config.js:25-33 | The reference list for a name is empty exactly when no file has that name, and it is never longer than the file sequence. |
| `Entries.PathsNamedMembers` | webpack.config.js:25-33 | A path is in a name's reference list iff some matched file with that entry name resolves to it. |
| `Entries.NamesOfMembers` | webpack.config.js:27 | A name is an entry name iff some matched file strips to it. |
| `Entries.BuildIsReference` | webpack.config.js:20-36 | The fold equals the reference table. Each key's list holds the paths of exactly the files with that name, in file order. |
| `Entries.BuildEntry` | webpack.config.js:29-33 | Each list of the fold equals the reference list for its key. |
| `Entries.BuildSnoc` | webpack.config.js:25-33 | One more matched file changes the table by exactly one loop step. |
| `Entries.PathsNamedAppend` | webpack.config.js:20-22 | The lists for a concatenation of file sequences are the concatenated lists. Earlier files always come first. |
| `Entries.PathCount` | webpack.config.js:29-32 | When paths are distinct, a path occurs once in a name's list if a file with that name has it, and otherwise not at all. |
| `Entries.EachFileOnce` | webpack.config.js:25-33 | When paths are distinct, every matched file's path is in its own name's list exactly once and in no other list. |
| `Entries.AddCountsOne` | webpack.config.js:29-33 | One loop step adds exactly one path to the table. |
| `Entries.BuildTotal` | webpack.config.js:20-36 | The lists together hold as many paths as there were matched files. |
| `Discovery.ScanExtensionsMembers` | webpack.config.js:21-25 | A category's scan holds a record exactly for each of its extensions and each name glob lets through for that extension. |
| `Discovery.ScanMembers` | webpack.config.js:20-25 | The full scan holds a record exactly for each (category, extension, name) that glob lets through. |
| `Discovery.ScanOfDirectory` | webpack.config.js:15-22 | The scan of the fixed table is the `js` results, then the `scss` results, then the `css` results. |
| `Discovery.EntryKeys` | webpack.config.js:25-33 | A name is a key iff it is the stripped name of a file glob returned for some category and extension. A key's list is never empty. |
| `Discovery.ScanExtensionsDistinct` | webpack.config.js:21-28 | Within one category, all matched files resolve to distinct paths. |
| `Discovery.ScanPathsDistinct` | webpack.config.js:20-28 | For a well-formed listing and a well-shaped table, all matched files resolve to distinct paths. |
| `Discovery.MatchedFileRecorded` | webpack.config.js:25-33 | A returned file's entry name is its relative name minus "." + ext. Its path is in that name's list exactly once and in no other list. |
| `Discovery.IgnoredFileContributesNothing` | webpack.config.js:24 | A file the ignore pattern matches, such as `_partial.scss`, has its path in no list. |
| `Discovery.NoEntryNameIsIgnored` | webpack.config.js:24-27 | No entry name matches the ignore pattern. In particular there is never an entry `_partial`. |
| `Discovery.StrippedNotIgnored` | webpack.config.js:24-27 | A name glob lets through still passes the ignore pattern after its extension is stripped. |
| `Discovery.EntryOrder` | webpack.config.js:15-22 | Each list is the `js` paths, then the `scss` paths, then the `css` paths for that name. Each group keeps glob's order. |
| `Discovery.TotalRecorded` | webpack.config.js:20-36 | The lists hold as many paths as the three glob calls returned together. |
| `Discovery.MissingStyleDirectory` | webpack.config.js:22-23 | With no style directory, every recorded path lies under the `js` directory. |
| `Discovery.SharedNameScenario` | webpack.config.js:25-33 | `js/foo.js` and `style/foo.scss` give the single entry `foo`, whose list holds both paths with the script first. |
| `Discovery.BuildSameName` | webpack.config.js:29-32 | Two files with one entry name make that name's two-element list, in file order. |
| `Discovery.RecordsMembers` | webpack.config.js:25 | Every record of a glob result carries that call's category and extension and one of its names. |
| `Discovery.LoopStep` | webpack.config.js:26-33 | One run of the callback body is one step of the fold. |
| `Discovery.AddGlobResult` | webpack.config.js:25-34 | The `.map` callback over one glob result leaves the table of the fold extended by that result's files. |
| `Discovery.AddCategory` | webpack.config.js:21-35 | The `forEach` over a category's extensions leaves the table of the fold extended by that category's scan. |
| `Discovery.BuildEntries` | webpack.config.js:19-36 | The imperative nested loops build exactly `EntriesOf`. |
| `ObjectKeys.AddAsWritten` | webpack.config.js:29-33 | On the object, the body succeeds iff the name is already a key or is not an inherited property. On success it equals `Entries.Add`, and on failure it reports that name. |
| `ObjectKeys.BuildAsWritten` | webpack.config.js:19-36 | The loops over the object finish iff no entry name is an inherited property, and then they build the fold's table. |
| `ObjectKeys.ConstructorEntryThrows` | webpack.config.js:29-30 | A script named `constructor.js` throws as written, while the intended table is `{constructor: [its path]}`. |

## Left out

- The glob traversal itself is not modelled. Pattern matching of `**/*.ext`, dot-file rules and the order glob returns names in are filesystem I/O inside a library. They are the `Listing` input, assumed well formed: no name twice per call, and each name ending in "." + ext.
- `Glob.Ignored`: the pattern `**/_*` is modelled as it matches a file path, by the base name. A file inside a directory whose name starts with `_`, such as `_lib/a.js`, is therefore kept. This follows the code and the glob library's ignore semantics, where only patterns ending in `/**` prune whole directories.
- `path.resolve` is not modelled. Making the path absolute against the working directory, and normalising it, depend on the host. `ResolvePath` is plain concatenation.
- `Naming.StripExtension`: the extension is matched literally. A regular expression built from an extension with metacharacters would differ, but the fixed table's extensions are letters only. The dot is modelled on Unicode scalar values, not on UTF-16 code units: for `😀js` the expression, which has no `u` flag, cuts only the low surrogate with `js` and leaves a lone high surrogate, while the model cuts the whole character. Glob's names always carry a literal `.` before the extension, so they never reach this case.
- The `NODE_ENV` mode switch is not modelled. It is an environment lookup.
- The exported configuration object is not modelled: plugins, loader rules, babel/postcss/sass options, output and resolve settings. These are declarative settings consumed by the bundler and third-party loaders.
- `Entries.TotalPaths` is a ghost count over the map, because it picks keys by choice. It serves only the counting lemmas.
- List order is category order, then extension order, then glob's order (`Discovery.EntryOrder`). The builder can throw (see Findings).
- The order of the entry keys is not modelled. `entries` is a JavaScript object, and the bundler receives its keys with integer-like names (such as `404`) first in ascending order, then the rest in insertion order. The model's `map` has no key order.

## Findings

| source | as written | input that shows it | evidently intended | confidence | as-written member | corrected member |
|---|---|---|---|---|---|---|
| webpack.config.js:29-33 | `entries` is the plain object `{}`. `if (entries[name])` is also truthy for properties inherited from `Object.prototype`, so `entries[name].push` runs on a function (or on the prototype) and throws a TypeError. | a script `./app/assets/_dev/js/constructor.js`; entry names `toString`, `valueOf`, `__proto__` and the like behave the same | a new name gets its own one-element list: `{constructor: [path]}` | high; not executed | `ObjectKeys.ConstructorEntryThrows` | `Entries.Add` |
