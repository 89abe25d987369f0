# PowerStash core, modelled in Dafny

PowerStash keeps a library of PowerShell scripts in the browser. This project
models the logic under its interface:

- **the line diff of the diff viewer** (`createDiff` in DiffViewer.tsx). It fills a
  longest-common-subsequence (LCS) table, then walks back through it to
  classify every line as `added`, `removed` or `common`;
- **the file-name sanitiser** (`sanitizeFilename` in App.tsx). It lowercases,
  drops quotes, collapses runs of other characters into `_`, trims `_`, and
  falls back to `script`;
- **the library handlers of `App`**: save, delete, update, the folder upload's
  merge and its early exits, the single-file/archive choice of the download,
  and the theme toggle;
- **the saved-scripts list**: the case-insensitive search over titles and tags,
  the download selection and its toggle, the download button, and the first
  three tags shown;
- **the landing page's typing animation** (`type` in landing_page/script_alt.js).

Modules:

| file | module | content |
|---|---|---|
| seqs.dfy | `Seqs` | positional subsequence, order-preserving `filter` |
| text.dfy | `Text` | ASCII `toLowerCase`, `includes`, `endsWith`, `split('\n')`/`join('\n')` |
| types.dfy | `Types` | `Script`, the data handed to save, `T \| null` |
| diff.dfy | `DiffEngine` | LCS table, backward walk, the source's two loops, optimality |
| sanitize.dfy | `Sanitize` | `sanitizeFilename` stage by stage |
| library.dfy | `Library` | App.tsx handlers as functions from state to state |
| scriptlist.dfy | `ScriptList` | SavedScriptsList.tsx search, selection, button, tags |
| typing.dfy | `Typing` | one tick of the typing animation, and runs of ticks |

The diff is modelled twice. The pure `Diff` is a recursive table `Table` plus
the walk `Walk`. The methods `BuildTable`, `WalkBack` and `CreateDiff` keep the
source's loops, including the unreachable fourth branch of the walk, and are
proved equal to `Diff`. The main results are these:

- the old side of the diff is the old text and the new side is the new text;
- the kept lines are a common subsequence of both;
- no common subsequence is longer;
- the diff has `n + m - LCS` parts.

Subsequences are positional (`Seqs.IsSubseq`), so duplicate lines are distinct
positions. On `["x","x"]` against `["x"]`, the backward walk matches the last
old `x` first, so the code reports `[removed x, common x]`
(`DiffEngine.DuplicateLinesExample`).

## Model

| member | source | states |
|---|---|---|
| DiffEngine.Table | components/DiffViewer.tsx:9-18 | an entry of the LCS table never exceeds either prefix length |
| DiffEngine.TableUnique | components/DiffViewer.tsx:9-18 | a shaped matrix that holds the recursive `Table` value in every cell is the table value `TableOf`, so the loops' matrix can stand for the table in the walk |
| DiffEngine.RecurrenceCell | components/DiffViewer.tsx:12-16 | in any matrix with zero borders whose inner cells follow the match rule or `Math.max` of their neighbours, every cell holds the LCS table value |
| DiffEngine.RecurrenceDeterminesTable | components/DiffViewer.tsx:9-18 | the filling recurrence (zero borders, match rule or `Math.max` at each inner cell) has exactly one solution of the table's shape: a matrix obeys it if and only if it is the LCS table |
| DiffEngine.BuildTable | components/DiffViewer.tsx:9-18 | the nested loops fill a (n+1)x(m+1) table that satisfies the recurrence at every cell |
| DiffEngine.BuildRow | components/DiffViewer.tsx:11-17 | the inner loop fills row `i` from row `i - 1`: every cell gets the recurrence's value |
| DiffEngine.WalkNeverBreaks | components/DiffViewer.tsx:23-35 | while `i > 0 \|\| j > 0` one of the first three guards holds, so the `break` is unreachable |
| DiffEngine.Move | components/DiffViewer.tsx:24-31 | the walk's choice at `(i, j)`: `common` exactly when both lines exist and are equal, `added` only when a new line is left and the left neighbour is at least the upper one (or no old line is left), and `removed` only when an old line is left and the left neighbour is strictly smaller than the upper one (or no new line is left), so ties go to `added` |
| DiffEngine.Walk | components/DiffViewer.tsx:20-37 | the parts the backward walk from `(i, j)` prepends, as a function: at least `max(i, j)` and at most `i + j` of them |
| DiffEngine.Diff | components/DiffViewer.tsx:8-38 | `createDiff` as a function: its old side is the old lines, its new side is the new lines, and its common lines are a common subsequence of both |
| DiffEngine.WalkRebuildsInputs | components/DiffViewer.tsx:20-37 | for any shaped table, the removed+common lines of the walk are the old prefix and the added+common lines are the new prefix |
| DiffEngine.WalkCommonCount | components/DiffViewer.tsx:24-31 | on the LCS table the walk keeps exactly `matrix[i][j]` lines |
| DiffEngine.SidesCoverParts | components/DiffViewer.tsx:25-31 | every part consumes an old line, a new line or both: parts = old + new - common |
| DiffEngine.CommonLinesAreCommon | components/DiffViewer.tsx:24-26 | the common lines of any part list are a subsequence of its old side and of its new side |
| DiffEngine.TableIsUpperBound | components/DiffViewer.tsx:12-16 | no common subsequence of the two prefixes is longer than the table entry |
| DiffEngine.TableIsLcsLength | components/DiffViewer.tsx:9-37 | the table entry is the LCS length: the walk attains it and nothing exceeds it |
| DiffEngine.DiffIsOptimalEditScript | components/DiffViewer.tsx:8-38 | the diff rebuilds both inputs, keeps a longest common subsequence, and has n+m-LCS parts |
| DiffEngine.WalkBack | components/DiffViewer.tsx:20-37 | the backward loop with `unshift` produces the walk over any shaped table |
| DiffEngine.WalkOnce | components/DiffViewer.tsx:23-35 | one pass of the loop body: exactly one part is prepended, of the kind `Move` chooses at `(i, j)`; `i` goes down unless it is `added` and `j` goes down unless it is `removed`; and the walk from the new position followed by the new list is still the whole walk |
| DiffEngine.CreateDiff | components/DiffViewer.tsx:8-38 | `createDiff` returns the diff. Its removed-plus-common lines rebuild the old text, its added-plus-common lines rebuild the new text, and its common lines are a subsequence of both |
| DiffEngine.DegenerateDiffs | components/DiffViewer.tsx:20-37 | identical inputs are all common; empty old is all added; empty new is all removed |
| DiffEngine.SubstitutionExample | components/DiffViewer.tsx:27 | a one-line change is `removed` then `added`, because ties go to `added` during the backward walk |
| DiffEngine.SwapExample | components/DiffViewer.tsx:27-31 | two swapped lines give removed a, common b, added a |
| DiffEngine.DuplicateLinesExample | components/DiffViewer.tsx:24-31 | duplicates match by position: `["x","x"]` vs `["x"]` gives removed x then common x |
| DiffEngine.DiffTexts | components/DiffViewer.tsx:46-48 | joining either side of the diff of two split texts with newlines gives back that text |
| Text.JoinSplit | components/DiffViewer.tsx:46-47 | `split('\n')` loses nothing: joining the pieces with newlines gives back the text |
| Text.SplitJoin | components/DiffViewer.tsx:46-47 | splitting a newline join of newline-free pieces gives back the pieces |
| Text.Split | components/DiffViewer.tsx:46-47 | one piece more than there are newlines, none containing a newline |
| Text.IncludesIff | components/SavedScriptsList.tsx:39-40 | `includes` holds exactly when the term occurs at some position |
| Text.Includes | components/SavedScriptsList.tsx:39-40 | `includes`: the empty term is always included, and an included term is no longer than the text; `Text.IncludesIff` gives the exact meaning |
| Text.LowerChar | App.tsx:24 | `toLowerCase` on one character: a capital becomes a small letter, every other character is kept, and the result is never a capital |
| Text.LowerCharShift | App.tsx:24 | the small letter a capital becomes is the one at the same place in the alphabet (`A` to `a`, …, `Z` to `z`) |
| Text.Lower | App.tsx:24 | `toLowerCase` on a string keeps its length and lowercases each character in place |
| Sanitize.SkipRun | App.tsx:26 | skips a maximal run of characters outside `[a-z0-9_]`: what remains starts with an allowed character |
| Sanitize.DropQuotes | App.tsx:25 | deletes exactly the quotes: the result is an order-preserving subsequence with no `'` or `"`, holding every other character as often as the input does |
| Sanitize.CollapseRuns | App.tsx:26 | after the replace only characters of `[a-z0-9_]` remain |
| Sanitize.CollapseKeepsAlnum | App.tsx:26 | the replace keeps every letter and digit, in order, and adds none |
| Sanitize.CollapseRunToOne | App.tsx:26 | a whole run of disallowed characters in front of an allowed one collapses to a single `_` |
| Sanitize.QuoteIsDeleted | App.tsx:25 | a quote anywhere in the title has no effect on the file name's stem |
| Sanitize.TrimStart | App.tsx:27 | the result is a suffix of the input, only `_` are removed, and it does not start with `_` |
| Sanitize.TrimEnd | App.tsx:27 | the result is a prefix of the input, only `_` are removed, and it does not end with `_` |
| Sanitize.TrimKeepsAlnum | App.tsx:27 | trimming keeps every letter and digit, in order |
| Sanitize.TrimmedIsValid | App.tsx:27 | trimming `_` from both ends of a string of `[a-z0-9_]` leaves nothing or a valid stem |
| Sanitize.Stem | App.tsx:23-27 | the sanitised stem is empty or a valid stem (`[a-z0-9_]`, no `_` at either end) |
| Sanitize.SanitizeFilename | App.tsx:22-29 | the file name is a valid stem followed by `.ps1` |
| Sanitize.StemKeepsAlnum | App.tsx:23-27 | every letter or digit of the lowercased title survives, in order |
| Sanitize.FallbackIff | App.tsx:28 | the `script` fallback is used exactly when the lowercased title has no letter or digit |
| Sanitize.StemOfValidStem | App.tsx:23-27 | a valid stem is its own sanitised stem |
| Sanitize.StemIdempotent | App.tsx:22-29 | sanitising an already sanitised stem changes nothing |
| Library.ToggleTheme | App.tsx:175-177 | the theme always changes |
| Library.ToggleThemeTwice | App.tsx:175-177 | toggling twice restores the theme |
| Library.SaveScript | App.tsx:104-114 | the new script goes first with the rest untouched, and becomes the selected one; editing ends; theme, upload error and key dialog are untouched |
| Library.DeleteScript | App.tsx:116-124 | removes every script with that id and keeps the others in order, each with as many copies as before; the selected and the edited script are cleared when they have that id and otherwise stay the same script; theme, upload error and key dialog are untouched |
| Library.DeleteAbsentId | App.tsx:117 | deleting an id nobody has changes nothing |
| Library.DeleteIdempotent | App.tsx:116-124 | deleting twice equals deleting once |
| Library.DeleteUndoesSave | App.tsx:104-124 | saving under a fresh id and deleting it gives the list back |
| Library.UpdateScript | App.tsx:126-134 | only the code of the matching scripts changes; the selected script takes the new code whatever its id; editing ends; theme, upload error and key dialog are untouched |
| Library.UpdateTwice | App.tsx:126-131 | a second update of an id overrides the first |
| Library.DeleteAfterUpdate | App.tsx:116-131 | updating and then deleting an id equals deleting it |
| Library.FolderUpload | App.tsx:183-257 | no files: nothing changes. No API key: the key error, with the key dialog opened. No `.ps1` file: the `.ps1` error. Otherwise the added scripts are those of the `.ps1` files that loaded, one per file in folder order; no error is shown exactly when every `.ps1` file loaded, and a shown error is that of the first `.ps1` file that failed. The old list is always kept as the tail, selection, editing and theme are untouched, and the key dialog opens only on the missing-key exit |
| Library.FinishUpload | App.tsx:240-250 | the scripts in front of the old list line up one to one with the loaded results, in result order; no error is set exactly when every result loaded, and a set error is the first failure's message; selection, editing, theme and key dialog are untouched |
| Library.Successes | App.tsx:241 | one script per loaded result, in result order: lined up with the loaded results |
| Library.Errors | App.tsx:242-249 | one message per failed result, in result order; none exactly when every file loaded; the first message is that of the first failure |
| Library.FailureInFolder | App.tsx:197-249 | the first failure among the `.ps1` outcomes is the outcome of the first `.ps1` file of the folder that failed |
| Library.UploadCounts | App.tsx:240-242 | every processed file is either a loaded script or an error |
| Library.UploadOnlyPs1 | App.tsx:197-245 | a script is added if and only if some `.ps1` file of the folder loaded it, and no more are added than there are such files |
| Library.ToDownloadList | App.tsx:155 | the requested scripts are those whose id was asked for, in list order and with every copy; none exactly when no id matches |
| Library.Package | App.tsx:156-172 | nothing for none, one sanitised file for one, otherwise an archive `powershell_scripts.zip` with one entry per script in order |
| Library.DownloadScripts | App.tsx:154-156 | nothing is downloaded exactly when no script has a requested id |
| Library.DownloadDependsOnIdSet | App.tsx:155 | only the set of requested ids matters, not their order or repeats |
| Library.DownloadFileNames | App.tsx:163-168 | an archive has at least two entries, each named as a valid stem plus `.ps1` |
| Library.DownloadOneFromViewer | App.tsx:158-162 | asking for one unique id gives that script as a single sanitised file |
| ScriptList.FilterScripts | components/SavedScriptsList.tsx:34-42 | an empty term shows all; otherwise the subsequence of scripts whose title or some tag includes the term, ignoring case, with every copy of a match kept |
| ScriptList.Matches | components/SavedScriptsList.tsx:38-40 | the search callback: the lowercased title or some lowercased tag includes the term, so every script matches the empty term |
| ScriptList.EmptyTermShortcutAgrees | components/SavedScriptsList.tsx:35-41 | the early return for an empty term agrees with filtering by it |
| ScriptList.FilterScriptsIdempotent | components/SavedScriptsList.tsx:34-42 | searching the result again with the same term changes nothing |
| ScriptList.FilterScriptsIgnoresCase | components/SavedScriptsList.tsx:36 | lowercasing the term does not change the result |
| ScriptList.LongerTermNarrows | components/SavedScriptsList.tsx:37-41 | a term that includes another keeps only what the shorter one keeps |
| Text.IncludesTransitive | components/SavedScriptsList.tsx:39-40 | if `s` includes `t` and `t` includes `u`, then `s` includes `u` |
| ScriptList.Remove | components/SavedScriptsList.tsx:59 | `Set.delete`: the id leaves, everything else stays, and no duplicates appear |
| ScriptList.Toggle | components/SavedScriptsList.tsx:55-65 | the toggled id flips membership, every other id keeps it, and the set stays duplicate-free |
| ScriptList.ToggleTwice | components/SavedScriptsList.tsx:55-65 | toggling twice restores the selected set |
| ScriptList.ToggleTwiceAbsent | components/SavedScriptsList.tsx:58-61 | ticking then unticking restores the selection exactly, insertion order included |
| ScriptList.DownloadClick | components/SavedScriptsList.tsx:67-70 | a disabled button (empty selection) does nothing; otherwise the selection is requested in insertion order and cleared |
| ScriptList.ShownTags | components/SavedScriptsList.tsx:110 | the first three tags, or all when there are fewer |
| Typing.Substring | landing_page/script_alt.js:54 | `substring(0, end)` is a prefix of the clamped length |
| Typing.Step | landing_page/script_alt.js:50-75 | one tick moves the index by one. The phase flips at the last character typed or erased, and the idea advances round-robin after an erase. Delays are 100, 2000, 50 and 500 ms; the text shown is the first `charIndex` characters |
| Typing.Run | landing_page/script_alt.js:69-74 | repeated ticks keep the idea index in range, and stay within the animation's invariant when every idea is non-empty |
| Typing.RunAppend | landing_page/script_alt.js:74 | ticks compose: a+b ticks are a ticks followed by b |
| Typing.TypeOut | landing_page/script_alt.js:56-66 | typing an idea out from position c takes the remaining ticks and ends in erase mode |
| Typing.EraseOut | landing_page/script_alt.js:53-72 | erasing c characters takes c ticks and ends at the start of the next idea |
| Typing.Cycle | landing_page/script_alt.js:50-75 | a non-empty idea of length L takes 2L ticks and 150L+2350 ms, then the next idea starts |
| Typing.InitialIsValid | landing_page/script_alt.js:38-48 | the page's ideas are non-empty and the initial state satisfies the invariant |

## Left out

- Rendering: React components, CSS classes and modals are not modelled. So are the diff viewer's markup and the `+ `/`- ` symbols.
- Sorting by date (SavedScriptsList.tsx:44-46): comparing `new Date(...)` values needs date parsing, which is not modelled. The search result is modelled before sorting.
- `localStorage`: the persistence of scripts, theme and API key, and the landing page's theme code, are not modelled.
- The clock: `Date.now()` and `new Date().toISOString()` are not modelled. Ids and timestamps are parameters of `Library.SaveScript`.
- Library.FolderUpload: reading a file (`FileReader`) and the model's title/tag analysis are I/O. Each picked file carries their result as its `outcome`. The script built inside `processFile` (its id from `Date.now()` and the file name, its timestamp, title and tags) and the text of a failure message are part of that outcome, and are not modelled. The transient `isUploading` flag and resetting the input element are not modelled.
- Library.Package: the archive is a list of entries. JSZip's handling of two entries with the same sanitised name, where the later overwrites the earlier, is not modelled, and neither is blob generation.
- The select, new, start-editing and cancel-editing handlers (App.tsx:136-152) are not modelled: each only sets or clears a state field.
- Text.LowerChar: lowercasing covers the ASCII letters only. Unicode case mapping is not modelled.
- Timers and the page element: `setTimeout` and `textContent` are not modelled. `Typing.Step` returns the text and the delay instead.
- Typing.Cycle: it is stated for non-empty ideas only. With an empty idea the source never reaches the erase phase and counts `charIndex` up for ever. The page's ideas are all non-empty (`Typing.InitialIsValid`).
- Concurrency between React state updates is not modelled: each handler is applied atomically to the state it sees.
- The AI services (`geminiService.ts`), the API-key wizard and the other components are not modelled.
