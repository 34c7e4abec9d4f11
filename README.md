# Screenshot catalog core, in Dafny

A small Laravel application keeps a catalog of trading screenshots. Each screenshot
row has a title and a `file_path`, and a pivot table links it to tags. Tags live in a
registry of unique names. Two pieces of the application hold real logic, and this
project models both over an in-memory store:

- **The `screenshots:import` console command** (`ImportScreenshots::handle`).
  - It walks the files under an import root.
  - For each file it computes the path relative to the public storage directory and
    normalises `\` to `/`.
  - It skips files whose path is already stored.
  - Otherwise it creates an entry titled with the file name without its extension, and
    tags the entry with the folder names between the first path segment and the file.
- **The screenshot controller.**
  - `index` lists entries under a comma-separated tag filter. Every requested tag is
    required. Entries tagged `draw` are hidden unless `draw` is requested.
  - `store` validates an uploaded image, creates its entry, and links exactly the
    requested tag names, registering the missing ones.

Layout:

- `php_strings.dfy` (module `PhpStrings`): the PHP builtins the core relies on:
  - `str_replace`;
  - `explode`/`implode` on one character;
  - `dirname`;
  - the file-name part of a pathname and its name without extension;
  - PHP truthiness of an optional string.

  Each one comes with lemmas that pin down its meaning.
- `catalog.dfy` (module `Catalog`): the database as a `Store` class. It holds the
  entry table, the tag registry, and the two auto-increment counters. It has the three
  ORM operations the core uses as methods: `Screenshot::create`,
  `Tag::firstOrCreate` and `sync`. `Valid()` states the table invariants: unique tag
  names, ids below the counters, and links only to registered tags.
- `importer.dfy` (module `Importer`): the command.
  - The loop is a method over the store, proved against a specification function
    `Plan`: the entries a run creates, in order.
  - The properties are proved about `Plan` and about the post-state predicate
    `ImportedAsPlanned`: unique paths, idempotence, untouched old entries, derived
    titles and tags.
- `screenshot_controller.dfy` (module `ScreenshotController`):
  - `index` is modelled as pure functions: the clauses the query builder collects, and
    the filter they select. They are tied to a direct statement of the listing rule,
    `Visible`.
  - `store` is a method on the store.

The filesystem is given as inputs:
- for the command: whether the root exists, the absolute storage base, and the listed
  pathnames;
- for `store`: the uploaded file's "is an image" flag and size, and the path the file
  store chose.

Behaviour of the code that the model keeps as written:

- The listing treats the `tags` filter as absent whenever PHP's `if ($tags)` is false:
  a missing parameter, `""`, and also `"0"`.
- The storage base is removed with `str_replace`, so every occurrence is removed, not
  just a leading one.
- A filter with an empty segment (`"Jan,"`) requires a tag named `""`.
- Failed validation in `store` is modelled as an explicit rejection that leaves the
  store unchanged. It is not a precondition.

The import's success message reports the number of files found, including the ones it
skipped, and `Import` returns that number.

## Model

| member | source | states |
|---|---|---|
| PhpStrings.StrReplace | app/Console/Commands/ImportScreenshots.php:42-45 | definition; characterised by `StrReplaceCharIsPointwise`, `StrReplaceAbsent`, `StrReplaceRemovesBase` and `StrReplaceRemovesInnerBase` |
| PhpStrings.StrReplaceCharIsPointwise | app/Console/Commands/ImportScreenshots.php:45 | replacing one character by another with str_replace is the position-by-position substitution `ReplaceChar` |
| PhpStrings.NormalisedHasNoBackslash | app/Console/Commands/ImportScreenshots.php:45 | after every `\` is replaced by `/`, no backslash is left |
| PhpStrings.StrReplaceAbsent | app/Console/Commands/ImportScreenshots.php:42 | a subject in which the search string never occurs comes back unchanged |
| PhpStrings.StrReplaceRemovesBase | app/Console/Commands/ImportScreenshots.php:42 | removing a storage base that occurs only at the front of a pathname yields the rest of the pathname |
| PhpStrings.StrReplaceRemovesInnerBase | app/Console/Commands/ImportScreenshots.php:42 | str_replace is not prefix removal: an occurrence of the base inside the path is removed too |
| PhpStrings.Explode | app/Console/Commands/ImportScreenshots.php:59 | explode yields at least one piece and no piece contains the delimiter |
| PhpStrings.ImplodeExplode | app/Console/Commands/ImportScreenshots.php:59 | joining the pieces explode yields, with the delimiter, restores the string |
| PhpStrings.ExplodeImplode | app/Console/Commands/ImportScreenshots.php:59 | splitting delimiter-free pieces joined by the delimiter gives exactly those pieces back |
| PhpStrings.Dirname | app/Console/Commands/ImportScreenshots.php:59 | definition; characterised by `DirnameOfChild` and `DirnameOfBareName` |
| PhpStrings.DirnameOfChild | app/Console/Commands/ImportScreenshots.php:59 | dirname of `dir/name` is `dir` for a slash-free name and a dir not ending in `/` |
| PhpStrings.DirnameOfBareName | app/Console/Commands/ImportScreenshots.php:59 | dirname of a path without `/` is `.` |
| PhpStrings.Basename | app/Console/Commands/ImportScreenshots.php:54 | the file name is the slash-free suffix of the pathname, preceded by `/` unless it is the whole pathname |
| PhpStrings.Stem | app/Console/Commands/ImportScreenshots.php:54 | the name without extension is the prefix before the last `.`, or the whole name when it has no `.` |
| PhpStrings.FilenameWithoutExtension | app/Console/Commands/ImportScreenshots.php:54 | definition; characterised by `FilenameWithoutExtensionOf`, `FilenameWithoutExtensionOfPlainName` and `Importer.TitleUnderBase` |
| PhpStrings.FilenameWithoutExtensionOf | app/Console/Commands/ImportScreenshots.php:54 | the title of `dir/stem.ext` is `stem`, dots inside the stem included |
| PhpStrings.FilenameWithoutExtensionOfPlainName | app/Console/Commands/ImportScreenshots.php:54 | a file name with no `.` is its own title |
| PhpStrings.Truthy | app/Http/Controllers/ScreenshotController.php:20 | definition; characterised by `ScreenshotController.IndexWithoutFilter` |
| Catalog.HasPath | app/Console/Commands/ImportScreenshots.php:48 | definition; the skip test of `ImportFile` |
| Catalog.FindTag | app/Http/Controllers/ScreenshotController.php:64 | the lookup of firstOrCreate finds a position holding the name, and finds none exactly when no tag has that name |
| Catalog.SyncedNames | app/Http/Controllers/ScreenshotController.php:63-66 | an entry synced to the ids looked up for `names` resolves to exactly the set of `names` |
| Catalog.SyncedIds | app/Http/Controllers/ScreenshotController.php:63-66 | with unique names, the synced id set is exactly the ids of the tags bearing the requested names, so duplicates collapse |
| Catalog.NamesRegistered | app/Http/Controllers/ScreenshotController.php:63-65 | every name that get-or-create looked up is registered afterwards |
| Catalog.NothingToRegister | app/Http/Controllers/ScreenshotController.php:63-65 | when every requested name is already registered, get-or-create of all of them registers nothing |
| Catalog.TagNamesStable | app/Console/Commands/ImportScreenshots.php:62 | registering new tags leaves the tag names of every existing entry unchanged |
| Catalog.Store.FirstOrCreate | app/Http/Controllers/ScreenshotController.php:64 | returns the id of the tag with the name; the registry is unchanged if the name was present, otherwise the tag is appended under the next counter value; table invariants kept |
| Catalog.Store.FirstOrCreateAll | app/Console/Commands/ImportScreenshots.php:62 | one id per name, position by position, each registered under that name (`Registered`); the registry only grows, and only by requested names it lacked before, under fresh ids (`GrewBy`) |
| Catalog.Store.Create | app/Console/Commands/ImportScreenshots.php:53-56 | appends exactly one entry with the next id, the given title and path and no links; table invariants kept |
| Catalog.Store.Sync | app/Console/Commands/ImportScreenshots.php:63 | the entry's links become exactly the set of given ids; every other entry and the registry are unchanged |
| Importer.RelativePath | app/Console/Commands/ImportScreenshots.php:42-45 | a stored path never contains a backslash |
| Importer.DerivedTags | app/Console/Commands/ImportScreenshots.php:59-60 | definition; characterised by `DerivedTagsAreFolders`, `DerivedTagsOfBareName` and `TagsOfFilePath` |
| Importer.DerivedTagsAreFolders | app/Console/Commands/ImportScreenshots.php:59-60 | a file at `first/f1/…/fn/name` gets exactly the tags `f1 … fn`; a file directly inside `first` gets none |
| Importer.DerivedTagsOfBareName | app/Console/Commands/ImportScreenshots.php:59-60 | a relative path without any folder (dirname `.`) gets no tags |
| Importer.PlanFor | app/Console/Commands/ImportScreenshots.php:42-60 | definition; characterised by `RelativePathUnderBase`, `TitleUnderBase`, `TagsOfFilePath` and `PlanForFileUnderBase` |
| Importer.RelativePathUnderBase | app/Console/Commands/ImportScreenshots.php:42-45 | a file at `base + rest` is stored under `rest`, when `base` does not occur inside `rest` and `rest` has no backslash |
| Importer.TitleUnderBase | app/Console/Commands/ImportScreenshots.php:54 | a file `stem.ext` anywhere under the base is titled `stem` |
| Importer.TagsOfFilePath | app/Console/Commands/ImportScreenshots.php:59-60 | the stored path `first/f1/…/fn/stem.ext` yields exactly the tags `f1 … fn` |
| Importer.PlanForFileUnderBase | app/Console/Commands/ImportScreenshots.php:42-60 | end to end: the file `base/first/f1/…/fn/stem.ext` is planned as the entry titled `stem`, stored under `first/f1/…/fn/stem.ext` and tagged `f1 … fn` |
| Importer.Dedupe | app/Console/Commands/ImportScreenshots.php:41-56 | definition; characterised by `DedupeKeepsPathsUnique`, `DedupeCoversCandidates`, `DedupeNothingWhenAllPresent` and `DedupeTakesCandidates` |
| Importer.Plan | app/Console/Commands/ImportScreenshots.php:41-56 | definition; characterised by `PlanCoversFiles`, `SecondRunPlansNothing` and `PlannedEntriesComeFromFiles`, and realised by `ImportAll` |
| Importer.DedupeKeepsPathsUnique | app/Console/Commands/ImportScreenshots.php:48-50 | with the skip, no created path was present before or is created twice |
| Importer.DedupeCoversCandidates | app/Console/Commands/ImportScreenshots.php:48-56 | after a run every candidate's path is in the table |
| Importer.DedupeNothingWhenAllPresent | app/Console/Commands/ImportScreenshots.php:48-50 | when every candidate's path is already stored, nothing is created |
| Importer.DedupeTakesCandidates | app/Console/Commands/ImportScreenshots.php:41-56 | every created entry is one of the candidates |
| Importer.PlanCoversFiles | app/Console/Commands/ImportScreenshots.php:41-56 | after a run, the relative path of every listed file is stored |
| Importer.SecondRunPlansNothing | app/Console/Commands/ImportScreenshots.php:48-50 | a second run over the same files, after the first run's paths are stored, plans no entry |
| Importer.PlannedEntriesComeFromFiles | app/Console/Commands/ImportScreenshots.php:42-60 | every created entry is derived from a listed file, has no backslash in its path, and carries the folder tags of its path |
| Importer.Import | app/Console/Commands/ImportScreenshots.php:30-68 | a missing root gives FAILURE and leaves the store unchanged; otherwise SUCCESS reporting the number of listed files, with the store as `ImportedAsPlanned` describes: old entries kept as they were, planned ones appended realising title, path and tags, and the registry grown only by planned tag names |
| Importer.ImportAll | app/Console/Commands/ImportScreenshots.php:41-64 | the loop leaves the store as `ImportedAsPlanned` describes |
| Importer.ImportFile | app/Console/Commands/ImportScreenshots.php:42-63 | one file: skipped with nothing changed when its path is stored, otherwise one entry realising its plan is appended, and earlier entries keep their tag names |
| Importer.AddEntry | app/Console/Commands/ImportScreenshots.php:53-63 | one entry realising its plan (title, path, and links resolving to exactly its tag names) is appended; earlier entries keep their tag names; the registry only grows, and only by the plan's tag names (`EntryAdded`) |
| Importer.ImportKeepsPathsUnique | app/Console/Commands/ImportScreenshots.php:48-56 | a run keeps file paths unique |
| Importer.EmptyPlanChangesNothing | app/Console/Commands/ImportScreenshots.php:48-50 | a run with nothing planned leaves both tables exactly as they were |
| Importer.SecondImportChangesNothing | app/Console/Commands/ImportScreenshots.php:48-50 | importing the same files twice: the second run adds no entry, link or tag |
| ScreenshotController.Clauses | app/Http/Controllers/ScreenshotController.php:20-35 | definition; characterised by `ClausesMeanVisible` |
| ScreenshotController.Index | app/Http/Controllers/ScreenshotController.php:14-38 | definition; characterised by `IndexIsVisibleEntries` |
| ScreenshotController.Select | app/Http/Controllers/ScreenshotController.php:24-37 | an entry is selected exactly when it is in the table and its tag names satisfy every clause; never more entries than the table |
| ScreenshotController.ClausesMeanVisible | app/Http/Controllers/ScreenshotController.php:20-35 | the collected `whereHas`/`whereDoesntHave` clauses hold exactly when the listing rule `Visible` holds |
| ScreenshotController.IndexIsVisibleEntries | app/Http/Controllers/ScreenshotController.php:14-38 | an entry is listed exactly when it is in the table and visible under the filter |
| ScreenshotController.IndexOnlyFilters | app/Http/Controllers/ScreenshotController.php:18-37 | the listing only holds entries of the table and is no longer than it |
| ScreenshotController.IndexWithoutFilter | app/Http/Controllers/ScreenshotController.php:20-34 | with the filter missing, `""` or `"0"`, the listing is exactly the entries without a `draw` tag |
| ScreenshotController.IndexRequiresEveryTag | app/Http/Controllers/ScreenshotController.php:21-26 | with a filter, every listed entry carries every comma-separated requested name |
| ScreenshotController.IndexHidesDraw | app/Http/Controllers/ScreenshotController.php:29-34 | when `draw` is not requested, no listed entry is tagged `draw` |
| ScreenshotController.IndexWithDrawRequested | app/Http/Controllers/ScreenshotController.php:24-31 | when `draw` is requested, an entry is listed exactly when it carries every requested name |
| ScreenshotController.TrailingCommaRequestsEmptyName | app/Http/Controllers/ScreenshotController.php:21 | the filter `Jan,` splits into `Jan` and the empty name |
| ScreenshotController.ValidateImage | app/Http/Controllers/ScreenshotController.php:46-50 | definition; characterised by the rejection clause of `StoreScreenshot` |
| ScreenshotController.LinkTags | app/Http/Controllers/ScreenshotController.php:62-67 | the entry's links become exactly the ids of the requested names, which resolve to exactly the requested names; every requested name is registered, the old tags are kept, only requested names are added, and nothing is added when all were registered |
| ScreenshotController.StoreScreenshot | app/Http/Controllers/ScreenshotController.php:44-70 | rejected exactly when the image is missing, not an image or over 2048 KB, and then nothing changes. Otherwise one entry is appended with the next id, the title and the stored path, and the registry keeps its old tags. Without `tags` the entry has no links and the registry is unchanged. With `tags`, every requested name is registered, only requested names are added, nothing is added when all were registered, and the entry links exactly the ids of the requested names, resolving to exactly their set |

## Left out

- Filesystem access is not modelled. `File::exists`, `File::allFiles`, `base_path` and the image upload's `store` are taken as inputs: the existence flag, the listed pathnames, the absolute storage base, and the stored path.
- The command's `path` argument and its default only decide the root that is checked and listed, so they are folded into those inputs.
- `Import`: `File::exists` is also true when the root is a regular file. `File::allFiles` then throws, but the model, given `rootExists`, reports `Imported(|files|)`. Listing a directory is an input, so that failure is not expressible.
- PHP strings are byte strings, while the model's `string` is a sequence of Unicode characters. The delimiter-based builtins agree on UTF-8 names, but file names that are not valid UTF-8 cannot be expressed.
- Paths are POSIX only. `getFilename` and `dirname` treat only `/` as a separator, as on Linux.
- Console output text, the JSON response with status 201, and eager loading of tags (`with('tags')`, `load('tags')`) are not modelled. They do not change the store.
- Laravel validation internals are reduced to inputs. MIME sniffing is an "is an image" flag. `title` being `nullable|string` is given by its type `Option<string>`. A `tags` value that is not an array cannot be expressed, and neither can an array-valued `tags` query parameter for `index`.
- The `show`, `update` and `destroy` actions are left out, because their bodies are empty.
- The race between the exists-check and `create` is not modelled. The model is sequential.
- Names and paths are compared by exact string equality. Under MySQL's default case-insensitive (`_ci`) collations, the path check of the import, `firstOrCreate` and `whereHas` would also treat names that differ only in letter case or trailing spaces as equal.
- The tag controller named in the routes is not part of this model. Neither are the route wiring, the Eloquent model declarations (which become the `Entry` and `Tag` datatypes) or the front-end build configuration.
