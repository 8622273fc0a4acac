# A Dafny model of the pl4te.dev scaffolding CLI and its todo demo store

This project models two small pieces of the pl4te.dev starter-kit repository and proves
properties about them.

The first piece is the `create-tanstack-start-shadcn` command-line tool
(`apps/create-tanstack-start-shadcn/bin/cli.js`). The model covers:

- the package-manager profile table;
- detection from the `npm_config_user_agent` hint;
- the `--use-<pm>` override flags and the interactive fallback;
- the package-name check and the project-name sanitiser;
- the recursive template copy (`copyDir` / `copy`);
- the `package.json` name patch;
- the dotfile renames;
- the confirmation gate before an existing target directory is removed.

The second piece is the in-memory todo store behind the `react-query` demo route of the
`create-start-basic` template (`src/routes/react-query.tsx`): the seeded `mockTodos` list,
the four mock API functions that read, extend, update and filter it, and the submit guard.

Modules:

- `Wrappers` (wrappers.dfy): `Option`, `Result` and `Outcome`.
- `Text` (text.dfy): the JavaScript string operations the tool relies on:
  - `trim` with the exact ECMAScript whitespace set;
  - ASCII `toLowerCase`;
  - `indexOf`;
  - a global `replace(/[class]+/g, '-')`, as `CollapseRuns`.
- `PackageNames` (package_names.dfy): `isValidPackageName` and `toValidPackageName`.
- `PackageManagers` (package_managers.dfy): the profile table, detection, flag selection
  and the prompt fallback.
- `FileTree` (file_tree.dfy): an abstract directory tree, and `copy` / `copyDir` as
  recursive methods. Both are proved against `Overlay`, a function saying what the
  destination becomes, and `Conflicts`, a predicate saying when the copy throws.
- `Scaffold` (scaffold.dfy):
  - the manifest patch and the rename loop, as functions with their lemmas;
  - `Materialize`, the end state of a fresh scaffold;
  - a `Target` class whose field is the target directory, and whose methods perform the
    steps of `main` in order.
- `Todos` (todos.dfy): the `Todo` record, the specification functions `FindIndex`,
  `Toggled`, `Without` and `SubmittedTitle`, and a `Store` class whose `todos` field is
  `mockTodos`.

The sanitiser is modelled as the code writes it. Its last step turns every run of
characters outside `[a-z0-9-~]` into a hyphen, and that includes a run at the very end.
So `"My Cool App!"` becomes `"my-cool-app-"`, with a trailing hyphen, and not
`"my-cool-app"` (`PackageNames.SanitiseMyCoolApp`, `PackageNames.SanitiseTrailingSymbol`).

The order of `main` is also modelled as written. A confirmed overwrite removes the existing
target before the package-manager prompt runs. So dismissing that prompt cancels the run
with no target directory left at all, not with the old one restored
(`Scaffold.Target.Create`).

## Model

| member | source | states |
|---|---|---|
| Text.Trim | apps/create-tanstack-start-shadcn/bin/cli.js:52 | the result is a contiguous slice of the input, and everything cut away before and after it is whitespace; the result has no whitespace at either end; it is empty exactly when every input character is whitespace; an input without whitespace at its ends is returned unchanged |
| Text.StartsWith | apps/create-tanstack-start-shadcn/bin/cli.js:40-42 | holds exactly when the string is the prefix followed by some rest |
| Text.ToLower | apps/create-tanstack-start-shadcn/bin/cli.js:53 | the result has the input's length, and each character is the input's character with A-Z mapped to a-z |
| Text.IndexOf | apps/create-tanstack-start-shadcn/bin/cli.js:148 | -1 exactly when the element is absent, otherwise the position of its first occurrence |
| Text.CollapseRuns | apps/create-tanstack-start-shadcn/bin/cli.js:54-56 | the replace never lengthens the string |
| Text.CollapseRunsAlphabet | apps/create-tanstack-start-shadcn/bin/cli.js:54-56 | after the replace, every character is a hyphen or lies outside the replaced class |
| Text.CollapseRunsKeepsPrefix | apps/create-tanstack-start-shadcn/bin/cli.js:54-56 | a prefix with no character of the class passes through the replace unchanged |
| Text.CollapseRunsNoop | apps/create-tanstack-start-shadcn/bin/cli.js:54-56 | a string with no character of the class is left unchanged |
| Text.CollapseRunsFront | apps/create-tanstack-start-shadcn/bin/cli.js:54-56 | a non-empty input gives a non-empty output that starts with a hyphen if the input starts inside a run, and with the input's first character otherwise |
| Text.CollapseRunsBack | apps/create-tanstack-start-shadcn/bin/cli.js:54-56 | the output ends with a hyphen if the input ends inside a run, and with the input's last character otherwise |
| Text.CollapseRunsSingle | apps/create-tanstack-start-shadcn/bin/cli.js:54-56 | a run of one class character becomes exactly one hyphen |
| Text.CollapseRunsRun | apps/create-tanstack-start-shadcn/bin/cli.js:54-56 | a run of class characters of any length, followed by the end or a character outside the class, becomes exactly one hyphen |
| Text.CollapseRunsThreeWords | apps/create-tanstack-start-shadcn/bin/cli.js:54 | three words separated by single spaces come out joined by single hyphens |
| PackageNames.IsValidPackageName | apps/create-tanstack-start-shadcn/bin/cli.js:46-48 | an accepted name is not empty, does not start with `.` or `_`, and holds no upper-case letter and no whitespace |
| PackageNames.ValidNameMatchesPattern | apps/create-tanstack-start-shadcn/bin/cli.js:46-48 | the executable check accepts a name exactly when it matches the regular expression: an optional `@scope/` with the scope's first and later character classes, then a name segment with its first and later character classes |
| PackageNames.StripLeadingDotOrUnderscore | apps/create-tanstack-start-shadcn/bin/cli.js:55 | exactly one leading `.` or `_` is removed; any other string is returned unchanged |
| PackageNames.ToValidPackageName | apps/create-tanstack-start-shadcn/bin/cli.js:50-57 | every character of the sanitised name lies in `[a-z0-9-~]` |
| PackageNames.SanitiserKeepsAllowed | apps/create-tanstack-start-shadcn/bin/cli.js:50-57 | a name over `[a-z0-9-~]` passes all five rewrites unchanged |
| PackageNames.SanitiserFixedPoints | apps/create-tanstack-start-shadcn/bin/cli.js:50-57 | the sanitiser leaves a name unchanged if and only if it is over `[a-z0-9-~]` |
| PackageNames.SanitiserIdempotent | apps/create-tanstack-start-shadcn/bin/cli.js:50-57 | sanitising twice gives the same as sanitising once |
| PackageNames.SanitisedNameIsValid | apps/create-tanstack-start-shadcn/bin/cli.js:46-57 | every non-empty sanitised name passes `isValidPackageName` |
| PackageNames.SanitiseLoneDotOrUnderscore | apps/create-tanstack-start-shadcn/bin/cli.js:52-55 | an input that trims to a lone `.` or `_` sanitises to the empty string |
| PackageNames.SanitiseNonBlank | apps/create-tanstack-start-shadcn/bin/cli.js:50-57 | any other input that is not blank sanitises to a non-empty string |
| PackageNames.SanitisedNameEmpty | apps/create-tanstack-start-shadcn/bin/cli.js:46-57 | the empty string fails `isValidPackageName`, and the sanitiser yields it exactly when the trimmed input is empty, `.` or `_` |
| PackageNames.SanitiseSecondLeadingDot | apps/create-tanstack-start-shadcn/bin/cli.js:55-56 | only one leading `.` or `_` is removed: with two of them, the result starts with a hyphen |
| PackageNames.SanitiseTrailingSymbol | apps/create-tanstack-start-shadcn/bin/cli.js:56 | a trimmed input of at least two characters that ends in a character outside `[a-z0-9-~]` (other than A-Z) gives a result ending in a hyphen |
| PackageNames.SanitiseMyCoolApp | apps/create-tanstack-start-shadcn/bin/cli.js:50-57 | `"My Cool App!"` sanitises to `"my-cool-app-"` |
| PackageManagers.ProfileOf | apps/create-tanstack-start-shadcn/bin/cli.js:15-36 | each profile's name is its table key, and its install and run commands start with that key |
| PackageManagers.Rank | apps/create-tanstack-start-shadcn/bin/cli.js:130 | a manager's position in `Object.keys` order holds that manager and its key |
| PackageManagers.Detect | apps/create-tanstack-start-shadcn/bin/cli.js:38-44 | a detected yarn, pnpm or bun has its name as a prefix of the hint; npm is detected exactly when none of the other three names is a prefix |
| PackageManagers.DetectByPrefix | apps/create-tanstack-start-shadcn/bin/cli.js:40-42 | a hint starting with yarn, pnpm or bun detects that manager, whatever order the checks run in |
| PackageManagers.DetectDefault | apps/create-tanstack-start-shadcn/bin/cli.js:39-43 | an absent or empty hint detects npm |
| PackageManagers.HintText | apps/create-tanstack-start-shadcn/bin/cli.js:39 | an absent hint reads as the empty string, a present one as its value |
| PackageManagers.PromptInitial | apps/create-tanstack-start-shadcn/bin/cli.js:148 | the prompt's initial index is never -1 and points at the detected manager |
| PackageManagers.FirstFlagged | apps/create-tanstack-start-shadcn/bin/cli.js:130-134 | the result is the first candidate whose `--use-` flag occurs in argv, and nothing exactly when no candidate's flag occurs |
| PackageManagers.FlagChoice | apps/create-tanstack-start-shadcn/bin/cli.js:129-135 | the chosen manager's flag is present and no earlier manager's flag is; nothing is chosen exactly when no flag is present |
| PackageManagers.SelectFromFlags | apps/create-tanstack-start-shadcn/bin/cli.js:129-135 | the loop with its `break` selects exactly what `FlagChoice` specifies |
| PackageManagers.Choose | apps/create-tanstack-start-shadcn/bin/cli.js:137-157 | a flag, when present, decides; otherwise accepting the default gives the detected manager and picking gives the picked one; the run is cancelled exactly when no flag is present and the prompt is dismissed |
| PackageManagers.NpmFlagWinsOverBun | apps/create-tanstack-start-shadcn/bin/cli.js:129-135 | with both `--use-npm` and `--use-bun`, npm is selected |
| PackageManagers.FlagOverridesDetection | apps/create-tanstack-start-shadcn/bin/cli.js:126-157 | `--use-pnpm` without the flags of earlier managers selects pnpm, whatever the hint and the prompt answer |
| PackageManagers.ChooseWithoutFlag | apps/create-tanstack-start-shadcn/bin/cli.js:137-157 | without a flag, accepting the default selects the detected manager; the run is cancelled exactly when no flag is present and the prompt is dismissed |
| FileTree.Copy | apps/create-tanstack-start-shadcn/bin/cli.js:68-75 | the copy succeeds exactly when no file meets a directory and no directory meets a file; on success the destination becomes the overlay of the source onto it |
| FileTree.CopyDir | apps/create-tanstack-start-shadcn/bin/cli.js:59-66 | the same for a source directory: the directory is created or kept, and every entry is copied in whatever order |
| FileTree.CopyIntoNothing | apps/create-tanstack-start-shadcn/bin/cli.js:59-75 | copying into a missing destination never fails and reproduces the source exactly |
| FileTree.OverlayHasSourceFiles | apps/create-tanstack-start-shadcn/bin/cli.js:59-75 | after a successful copy, every file of the source is at the same path with the same content |
| FileTree.OverlayKeepsOtherFiles | apps/create-tanstack-start-shadcn/bin/cli.js:59-75 | a destination file at a path the source does not have survives the copy unchanged |
| FileTree.CopyTwice | apps/create-tanstack-start-shadcn/bin/cli.js:59-75 | copying the same source a second time succeeds and changes nothing |
| Scaffold.PatchManifest | apps/create-tanstack-start-shadcn/bin/cli.js:169-172 | the patch succeeds exactly when the target is a directory holding a `package.json` file that parses as a manifest; then `name` becomes the package name, the manifest's other fields and every other entry are kept |
| Scaffold.RenameEntry | apps/create-tanstack-start-shadcn/bin/cli.js:185-187 | a missing source is skipped; a rename fails only when both names exist and differ; on success the entry moves to its new name and no other name changes |
| Scaffold.RenameAll | apps/create-tanstack-start-shadcn/bin/cli.js:182-188 | no name outside the rename pairs is changed, whether the loop succeeds or fails |
| Scaffold.RenameAllEffect | apps/create-tanstack-start-shadcn/bin/cli.js:182-188 | with distinct names, after all renames each existing source is at its new name and gone from its old one, and every unmentioned name is unchanged |
| Scaffold.RenameAllFails | apps/create-tanstack-start-shadcn/bin/cli.js:182-188 | with distinct names, the loop fails exactly when one rename, applied to the original entries, would fail |
| Scaffold.RenamesDistinct | apps/create-tanstack-start-shadcn/bin/cli.js:175-180 | the tool's four rename pairs mention eight distinct names |
| Scaffold.ManifestNotRenamed | apps/create-tanstack-start-shadcn/bin/cli.js:169-180 | no rename touches `package.json` |
| Scaffold.DotfilesRenamed | apps/create-tanstack-start-shadcn/bin/cli.js:175-188 | when no dotted name is taken, the renames cannot fail; on success each of `gitignore`, `prettierignore`, `vscode` and `claude` that existed is under its dotted name, and nothing else changes |
| Scaffold.Materialize | apps/create-tanstack-start-shadcn/bin/cli.js:166-188 | the copied tree always exists; a template without a `package.json` file leaves the copy as it is and fails with the patch's error |
| Scaffold.MaterializedProject | apps/create-tanstack-start-shadcn/bin/cli.js:166-188 | a fresh scaffold that succeeds has the package name in its manifest, the dotfiles under their dotted names, and every other template entry unchanged |
| Scaffold.Target.constructor | apps/create-tanstack-start-shadcn/bin/cli.js:105-109 | the target starts as whatever lies at the resolved path, or nothing |
| Scaffold.Target.Remove | apps/create-tanstack-start-shadcn/bin/cli.js:122 | the target no longer exists |
| Scaffold.Target.CopyTemplate | apps/create-tanstack-start-shadcn/bin/cli.js:166 | passes exactly when the template does not conflict with the target; then the target becomes the overlay |
| Scaffold.Target.UpdateManifest | apps/create-tanstack-start-shadcn/bin/cli.js:169-172 | the target becomes the patched tree, or stays unchanged with the patch's error |
| Scaffold.Target.RenameDotfiles | apps/create-tanstack-start-shadcn/bin/cli.js:175-188 | the loop's outcome and final tree are those `RenameAll` specifies, including the partial state after a failure |
| Scaffold.Target.Create | apps/create-tanstack-start-shadcn/bin/cli.js:105-188 | an existing target without confirmation cancels and is left alone; otherwise the target is removed and the package manager chosen; a dismissed prompt then cancels and leaves no target at all; with a manager chosen, the final tree and outcome are those of `Materialize` and a finished run carries the chosen manager; its manifest carries the sanitised project name |
| Todos.FindIndex | apps/create-start-basic/template/src/routes/react-query.tsx:111 | nothing exactly when no todo has the id, otherwise the position of the first todo with it |
| Todos.Toggled | apps/create-start-basic/template/src/routes/react-query.tsx:113 | the chosen todo keeps its id and title with `completed` flipped, and every other todo is unchanged |
| Todos.ToggleTwiceRestores | apps/create-start-basic/template/src/routes/react-query.tsx:109-115 | after a toggle, the same todo is found again, and a second toggle restores the list |
| Todos.Without | apps/create-start-basic/template/src/routes/react-query.tsx:130 | a todo is kept exactly when it was there and has another id |
| Todos.WithoutConcat | apps/create-start-basic/template/src/routes/react-query.tsx:130 | the filter works element by element, so the survivors keep their order |
| Todos.WithoutAbsent | apps/create-start-basic/template/src/routes/react-query.tsx:130 | deleting an id that no todo carries changes nothing |
| Todos.WithoutIdempotent | apps/create-start-basic/template/src/routes/react-query.tsx:128-131 | deleting twice is deleting once |
| Todos.SubmittedTitle | apps/create-start-basic/template/src/routes/react-query.tsx:186-191 | no title exactly when the input is all whitespace; otherwise the trimmed input, non-empty, with no whitespace at either end |
| Todos.Store.constructor | apps/create-start-basic/template/src/routes/react-query.tsx:25-29 | the store starts with the three seeded todos |
| Todos.Store.GetTodos | apps/create-start-basic/template/src/routes/react-query.tsx:56-60 | returns the current list |
| Todos.Store.CreateTodo | apps/create-start-basic/template/src/routes/react-query.tsx:86-95 | one new uncompleted todo with the given title and time-based id is appended and returned |
| Todos.Store.ToggleTodo | apps/create-start-basic/template/src/routes/react-query.tsx:109-115 | an unknown id fails with "Todo not found" and changes nothing; otherwise the first matching todo is flipped and a copy of it returned |
| Todos.Store.DeleteTodo | apps/create-start-basic/template/src/routes/react-query.tsx:128-131 | the list becomes the list without every todo with that id |
| Todos.Store.HandleSubmit | apps/create-start-basic/template/src/routes/react-query.tsx:186-191 | a blank input changes nothing; otherwise exactly one todo with the trimmed title is appended |

## Left out

- Console output, colours, prompts and `process.exit` are not modelled. Prompt answers, the overwrite confirmation, argv and the user-agent hint are parameters of `Scaffold.Target.Create` (`answer`, `overwrite`, `argv`, `userAgent`). A cancelled run is a `Cancelled` result.
- Reading the project name from `process.argv[2]` or the text prompt (cli.js:82-103) is left out: the model starts from the resolved name.
- The dependency install (`execSync(pm.install)`, cli.js:190 onwards) and the closing instructions are left out. The profile's install and run commands appear only in their table.
- The filesystem is a tree value. Paths are single top-level names inside the target. `path.resolve`, multi-segment project names and creating parent directories are not modelled. Neither are permissions, symbolic links, special files and concurrent changes.
- Scaffold.Target.CopyTemplate: on a conflict the target is left as it was, but Node would keep the entries copied before the failure. The model does not capture those partial writes.
- FileTree.CopyDir: the order in which `readdirSync` lists entries is left open, not fixed. This is why the contract speaks of the final tree and not of the order of writes.
- JSON is abstracted. A `package.json` either parses to a `Manifest` (its `name` and its other top-level fields, whose values are opaque strings) or fails with `ParseError`. Non-object JSON counts as a parse failure. The two-space formatting, the trailing newline and key order on write are not modelled.
- `toLowerCase` maps only A-Z. Unicode case mapping for other letters is not modelled.
- The todo store's `setTimeout` delays and asynchrony are not modelled, and neither is the React Query cache and its invalidation. `Date.now()` is the parameter `now`.
- Todos.Store.GetTodos: in the source, the copy returned by `getTodos` shares its todo objects with the store, so a later in-place toggle shows through an earlier copy. Dafny sequences are values, and that aliasing is not modelled.
- The rendering of the demo page (its JSX) is left out.
