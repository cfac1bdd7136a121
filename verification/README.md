# Stata Raycast extension — a Dafny model of its list and string logic

The extension is a set of independent Raycast commands for working with Stata. This
project models the deterministic part of five of them as pure Dafny functions over
immutable data, and proves properties about them:

- **Browse Stata Datasets** (`BrowseDatasets`). A recursive scan of a directory tree
  for `.dta` files: hidden directories and entries that cannot be read are skipped.
  Then come de-duplication by path (the first record wins), sorting by name under an
  abstract collation, the search filter, grouping by parent directory, and the unit
  a file size is shown in.
- **Create Do File** (`CreateDoFile`). The `.do` suffix rule, form validation, the
  choice between template content and the text area, and the refusal to overwrite an
  existing file. The filesystem is a map from path to contents.
- **Run Stata Code** (`RunStataCode`). The quick-command insertion, the do-file that
  wraps the code in a log, and the fall-back chains for the output and error text.
  It also covers the removal of both scratch files. Stata is an oracle that reports
  its error, stdout, stderr, the filesystem it leaves behind, and whether the log can
  be read.
- **Recent Stata Do Files** (`RecentDoFiles`). The recent-document list narrowed to
  existing `.do` files, and the "File not found" guards on its actions.
- **Stata Help** (`StataHelp`). The category drop-down, the commands of a category,
  the sections shown, and the fall-back text of a command's detail page.

Shared modules:

- `Text`: JavaScript string methods (`startsWith`, `endsWith`, `includes`,
  `toLowerCase`, `join`, `trim`).
- `Paths`: Node's posix `join` (with the segment resolution of `normalize`),
  `dirname`, `basename` and `extname`.
- `Files`: the filesystem map and the effect of `writeFileSync`, which creates or
  truncates its file before writing, so a write can fail with the file half written.
- `Options`: a value that may be missing (`undefined`, an absent key).
- `Seqs`: `filter`, `findIndex`, de-duplication, and grouping by key. `Seqs.GroupBy` is
  the reference grouping the commands' reductions are proved equal to.

Inputs that come from the operating system are parameters:

- the directory tree;
- the filesystem map;
- how a write ends (completed, failed before the file was opened, or failed after some
  characters were written), and whether an open or a removal succeeds;
- the existence predicate;
- the parsed preferences file;
- Stata's report.

## Model

| member | source | states |
|---|---|---|
| BrowseDatasets.UnitIndex | src/browse-datasets.tsx:42 | for a positive size, the chosen exponent `i` satisfies `1024^i <= bytes < 1024^(i+1)` |
| BrowseDatasets.UnitIndexIsLargest | src/browse-datasets.tsx:42 | no exponent larger than the chosen one has its power of 1024 within the size |
| BrowseDatasets.UnitIndexBelow | src/browse-datasets.tsx:42 | a size below `1024^k` gets an exponent below `k` |
| BrowseDatasets.UnitAsWritten | src/browse-datasets.tsx:38-43 | zero bytes give "B"; a positive size gets `sizes[i]` exactly when `i < 4`, and no label (JavaScript's `undefined`) otherwise |
| BrowseDatasets.UnitAsWrittenUndefinedAtOneTebibyte | src/browse-datasets.tsx:41-43 | a file of 1099511627776 bytes gets no unit label from the code as written |
| BrowseDatasets.DisplayUnit | src/browse-datasets.tsx:38-43 | the unit is always one of B/KB/MB/GB; below `1024^4` it agrees with the code's label; from `1024^4` on it is "GB" |
| BrowseDatasets.UnitIndexMonotonic | src/browse-datasets.tsx:42 | a larger file never gets a smaller unit exponent |
| BrowseDatasets.DatasetNameIffSuffix | src/browse-datasets.tsx:60 | a name is a dataset name iff it is longer than four characters and its last four characters lower-case to ".dta" (a bare ".dta" has no extension) |
| BrowseDatasets.ScanDirectory | src/browse-datasets.tsx:46-83 | a path that does not exist, or is not a listable directory, yields no records; a listable directory yields the scan of its listing |
| BrowseDatasets.ScanEntriesConcat | src/browse-datasets.tsx:54-77 | the scan of a listing is the scan of its first part followed by the scan of the rest, so records keep listing order |
| BrowseDatasets.ScanSkipsEntry | src/browse-datasets.tsx:57-76 | an entry that cannot be stat'ed, is neither file nor directory, is a hidden or unreadable directory, or is a non-`.dta` file contributes nothing, and its siblings are still scanned |
| BrowseDatasets.ScanFindsFile | src/browse-datasets.tsx:60-67 | a `.dta` file yields exactly one record — its name, the joined path, the scanned directory's base name and its size — between its siblings' records |
| BrowseDatasets.ScanDescends | src/browse-datasets.tsx:68-71 | a visible listable subdirectory is scanned under its joined path, and its records follow those of the entries before it |
| BrowseDatasets.ScanEntriesFoundUnder | src/browse-datasets.tsx:55-71 | every record describes a `.dta` file: its path is its directory joined with its name, `directory` is that directory's base name, and the directory is beneath the scanned one without passing through a hidden directory |
| BrowseDatasets.ScanDirectoryFoundUnder | src/browse-datasets.tsx:46-83 | the same for the scan of a root |
| BrowseDatasets.SortByName | src/browse-datasets.tsx:102 | sorting yields a permutation of its input |
| BrowseDatasets.SortByNameStable | src/browse-datasets.tsx:102 | the sort is stable, as `Array.prototype.sort` is: the records whose names compare equal to any given name keep their relative order |
| BrowseDatasets.SortByNameSorted | src/browse-datasets.tsx:102 | under a total-preorder collation the sorted list is ordered by name |
| BrowseDatasets.SortByNameDistinctPaths | src/browse-datasets.tsx:98-102 | sorting records with distinct paths keeps the paths distinct |
| BrowseDatasets.FindDatasetsProps | src/browse-datasets.tsx:90-104 | the shown datasets: no two share a path; the set of paths is that of all scanned records; each is the first record scanned with its path; they are a permutation of the de-duplicated records; they are sorted by name; records whose names compare equal keep their de-duplicated order, which decides which directory a same-named dataset is listed under first |
| BrowseDatasets.FilterDatasets | src/browse-datasets.tsx:127-130 | keeps exactly the datasets whose lower-cased name or directory contains the lower-cased search text, each as often as in the input and in their original order; an empty search keeps everything |
| BrowseDatasets.FilterDatasetsIdempotent | src/browse-datasets.tsx:127-130 | searching the result again with the same text changes nothing |
| BrowseDatasets.GroupByDirectoryIsGroupBy | src/browse-datasets.tsx:133-140 | the reduction builds the reference grouping: one group per directory in order of first appearance, each holding that directory's datasets in order |
| BrowseDatasets.GroupByDirectoryProps | src/browse-datasets.tsx:133-140 | sections have distinct directories, are non-empty, hold exactly the datasets whose `dirname(path)` is their key, keep the filtered order, and together are a permutation of the filtered list |
| Paths.NodeJoinPlain | src/browse-datasets.tsx:55 | for an absolute directory made of plain names (none empty, `.`, `..` or holding `/`), including the root, and a plain entry name, `path.join` is the plain join: the directory, one separator, the name |
| Paths.JoinPathStaysNormal | src/browse-datasets.tsx:55 | that join is the directory's path extended by the name, again made of plain names, so every join a scan makes from such a root is of this form |
| Paths.NormalizeAbsolute | src/create-do-file.tsx:230 | `path.normalize` leaves an absolute path made of plain names, including the root, unchanged |
| Paths.NormalizeEndsWithLastSegment | src/create-do-file.tsx:230 | when the segment after the last `/` is a plain name, `path.normalize` keeps it at the end of the path |
| Paths.TrailingSeparatorIgnored | src/browse-datasets.tsx:66 | `dirname` and `basename` give the same for a path with a trailing separator as without it |
| Paths.DirNameBaseNameCases | src/browse-datasets.tsx:134 | `dirname("/a/b/")` is `/a` and `basename("/a/b/")` is `b`; the root is its own `dirname` and has an empty `basename`; `dirname("//a")` is `//`; a path without a separator has `.` |
| Paths.BaseNameOfName | src/browse-datasets.tsx:62 | a name as `readdirSync` returns it is its own `basename`, so a record's name is the listed entry |
| Paths.JoinPathSplits | src/browse-datasets.tsx:55 | joining a normalised directory and an entry name gives a path whose dirname is the directory and whose basename is the name |
| Paths.BeneathStep | src/browse-datasets.tsx:68-70 | what lies beneath a visible subdirectory lies beneath its parent without a hidden segment |
| Text.ContainsIffOccurs | src/browse-datasets.tsx:128-129 | `includes` holds iff the text occurs at some position |
| Seqs.FindIndex | src/browse-datasets.tsx:99 | returns -1 iff no element has the key, and otherwise the first index whose element has it |
| Seqs.DistinctByProps | src/browse-datasets.tsx:98-100 | the `findIndex` filter leaves no two elements with the same key, keeps the set of keys, keeps the first element of each key, and orders them by first occurrence |
| Seqs.DistinctByIdempotent | src/browse-datasets.tsx:98-100 | de-duplicating twice is de-duplicating once |
| Seqs.GroupBySnoc | src/browse-datasets.tsx:133-140 | grouping a list extended by one element is adding that element to the grouping of the list |
| Seqs.GroupByPermutation | src/browse-datasets.tsx:133-140 | concatenating the groups is a permutation of the input |
| Seqs.FilterMembers | src/browse-datasets.tsx:127 | `filter` keeps exactly the elements that pass the test |
| Seqs.FilterIsSubsequence | src/browse-datasets.tsx:127 | `filter` keeps the relative order of the elements it keeps |
| Seqs.FilterCounts | src/browse-datasets.tsx:127 | `filter` keeps every occurrence of a kept value and drops every occurrence of the others |
| CreateDoFile.FindTemplate | src/create-do-file.tsx:225 | `find` gives nothing iff no template has the name, and otherwise the first template with it |
| CreateDoFile.ContentOnTemplateChange | src/create-do-file.tsx:194-202 | choosing a template loads its content into the text area; an unknown name clears it |
| CreateDoFile.ChosenContent | src/create-do-file.tsx:225-226 | the written content is the template's when the selected name matches one, and the text area's otherwise |
| CreateDoFile.ChosenContentMatchesPreview | src/create-do-file.tsx:194-202 | selecting a template and submitting without edits writes exactly what the text area shows |
| CreateDoFile.EditsIgnoredForKnownTemplate | src/create-do-file.tsx:225-226 | once a known template is selected, edits in the text area do not change the content written |
| CreateDoFile.NormalizeDoNameProps | src/create-do-file.tsx:229 | the normalised name ends in ".do" and starts with the entered name; a name ending in ".do" is kept, any other gets exactly ".do" appended |
| CreateDoFile.NormalizeDoNameIdempotent | src/create-do-file.tsx:229 | normalising twice is normalising once |
| CreateDoFile.NormalizeDoNameCaseSensitive | src/create-do-file.tsx:229 | the suffix test is case-sensitive: "analysis.DO" becomes "analysis.DO.do" |
| CreateDoFile.SelectedLocation | src/create-do-file.tsx:215-216 | there is a location iff the picker's array has a non-empty first element, and it is that element |
| CreateDoFile.TargetPathEndsInDo | src/create-do-file.tsx:229-230 | whatever the typed name holds (separators, `.`, `..`), the joined path ends in ".do" |
| CreateDoFile.TargetPathClimbs | src/create-do-file.tsx:230 | the typed name is resolved as `path.join` does: "../a" at "/u/p" names "/u/a.do" |
| CreateDoFile.Submit | src/create-do-file.tsx:204-263 | an empty name fails first, then a missing location, then an existing joined path, all without touching the filesystem; otherwise the write is attempted: a completed write creates exactly that path with the chosen content, a write that cannot open the file changes nothing, and one that fails after opening leaves a prefix of the content at that path; no other path ever changes |
| CreateDoFile.SubmitRefusesExisting | src/create-do-file.tsx:232-240 | an existing joined path is reported with the title "File already exists" and the normalised name, and the filesystem is unchanged |
| CreateDoFile.SubmitRefusesClimbingOntoExisting | src/create-do-file.tsx:230-240 | with "/u/a.do" present, the name "../a" at "/u/p" is refused as already existing and nothing is written |
| CreateDoFile.SubmitFrame | src/create-do-file.tsx:230-243 | no existing path changes and at most the joined path is added; a creation adds exactly that path, ending in ".do" |
| CreateDoFile.SubmitTwice | src/create-do-file.tsx:232-243 | submitting the same form again after a creation reports "already exists" and changes nothing |
| CreateDoFile.SubmitAfterPartialWrite | src/create-do-file.tsx:233-243 | after a write that failed part-way, submitting the same form again is refused as "already exists" |
| Files.AfterWrite | src/create-do-file.tsx:243 | a completed write maps the path to the content, a write that cannot open the file changes nothing, one that fails after opening leaves a prefix of the content no longer than what was written; no other path changes |
| RunStataCode.QuickInsert | src/run-stata-code.tsx:161 | into an empty box the command is inserted alone; otherwise after the old code and a newline; the old code is always a prefix and the command a suffix |
| RunStataCode.InsertAllJoinsLines | src/run-stata-code.tsx:161 | inserting non-empty commands one after another into an empty box puts one command per line |
| RunStataCode.DoFileContent | src/run-stata-code.tsx:75-80 | the do-file starts with an empty line and the `log using "<logFile>", replace text` line, ends with `log close` and `exit`, and is exactly as long as those lines plus the code |
| RunStataCode.ExtractDoFileContent | src/run-stata-code.tsx:75-80 | the code can be read back verbatim from between the log header and the trailer |
| RunStataCode.DoFileContentInjective | src/run-stata-code.tsx:75-80 | different code never yields the same do-file |
| RunStataCode.OutputText | src/run-stata-code.tsx:101-110 | a readable log gives its contents; otherwise non-empty stdout; otherwise "No output generated" without a log and "Could not read output" when the read throws |
| RunStataCode.OutputTextNonEmpty | src/run-stata-code.tsx:101-110 | unless a readable log is itself empty, the output is never empty |
| RunStataCode.ResultPrecedence | src/run-stata-code.tsx:96-115 | a readable log hides stdout and a process error hides stderr; the result has no error iff there is no process error and stderr is empty |
| RunStataCode.ErrorText | src/run-stata-code.tsx:96-98 | the process error's message wins; without one there is an error text iff stderr is non-empty, and it is stderr |
| RunStataCode.RemoveAll | src/run-stata-code.tsx:121-123 | exactly the listed files that exist and can be removed disappear; every other path keeps its contents |
| RunStataCode.LogOf | src/run-stata-code.tsx:103-104 | the log is missing iff Stata left no file at its path, and read iff it is there and readable |
| RunStataCode.RunCode | src/run-stata-code.tsx:67-142 | a failed do-file write launches nothing and removes nothing: a write that cannot open the file leaves the filesystem as it was, one that fails after opening leaves a prefix of the do-file behind, and no other path changes; a completed write lets Stata run on the filesystem with the do-file written, the result carries the code verbatim and the output and error fall-backs, both scratch files are attempted for removal and nothing else changes |
| RunStataCode.RunCodeCleansUp | src/run-stata-code.tsx:120-123 | when both can be removed, neither scratch file is left and every other file is as Stata left it |
| RunStataCode.RemovalIndependent | src/run-stata-code.tsx:121-123 | a failed removal of the do-file does not keep the log file from being removed |
| RecentDoFiles.RecentPaths | src/recent-stata-do-files.tsx:25 | a missing `NSRecentDocumentPaths` key, like a failed read, gives an empty list |
| RecentDoFiles.RecentDoFiles | src/recent-stata-do-files.tsx:19-35 | the list holds exactly the recent paths that end in ".do" and exist, each as often as it is recorded and in recorded order; it is empty when the preferences cannot be read |
| RecentDoFiles.RecentDoFilesKeepsAll | src/recent-stata-do-files.tsx:26 | when every recent path is an existing ".do" file, all are listed as recorded |
| RecentDoFiles.RecentDoFilesIdempotent | src/recent-stata-do-files.tsx:26 | filtering the listed files again changes nothing |
| RecentDoFiles.Availability | src/recent-stata-do-files.tsx:54 | an item is "Available" iff its file exists and "Missing" iff it does not |
| RecentDoFiles.OpenInStata | src/recent-stata-do-files.tsx:63-82 | a file that no longer exists is reported as not found and not opened; otherwise it is opened, announced by its base name, or reported as failed to open |
| RecentDoFiles.ShowInFinder | src/recent-stata-do-files.tsx:87-97 | a file is revealed iff it exists; a missing one is reported as not found |
| RecentDoFiles.ListedFilesAreFound | src/recent-stata-do-files.tsx:26-96 | while the filesystem is unchanged, no listed file is reported missing by either action, and each shows as available |
| StataHelp.CategoriesProps | src/stata-help.tsx:328 | the drop-down starts with "All"; after it each category of the table appears exactly once, nothing else appears, and categories come in order of first appearance |
| StataHelp.FilteredCommands | src/stata-help.tsx:334-336 | "All" gives the whole table; another category gives exactly its references, each as often as in the table and in table order |
| StataHelp.SectionsForAll | src/stata-help.tsx:357-363 | with "All" selected there is one non-empty section per category, each listing exactly that category's references; together they list every reference once |
| StataHelp.SectionsForCategory | src/stata-help.tsx:357-363 | with another category selected there is one section, that category's, holding the filtered commands; there is none when no reference has the category |
| StataHelp.ExamplesBlockFallback | src/stata-help.tsx:410 | the examples text is "No examples available." iff the examples are missing or empty; otherwise it opens with the first example's code fence |
| StataHelp.TipsBlockPresence | src/stata-help.tsx:412 | the tips block is present iff tips are given, even as an empty list, and then opens with "## Tips & Notes" |
| StataHelp.DocsBlockPresence | src/stata-help.tsx:414 | the documentation block is present iff a non-empty link is given, and then opens with "## Official Documentation" |
| StataHelp.DetailShowsNoExamples | src/stata-help.tsx:401-415 | a command without examples shows "No examples available." in its trimmed detail markdown |
| StataHelp.DetailShowsTips | src/stata-help.tsx:401-415 | a command with tips shows the tips heading in its trimmed detail markdown |
| StataHelp.DetailShowsDocs | src/stata-help.tsx:401-415 | a command with a non-empty link shows the documentation heading in its trimmed detail markdown |
| Text.TrimKeepsOccurrence | src/stata-help.tsx:415 | `trim()` keeps every occurrence of a text that starts and ends with a non-space |
| StataHelp.FirstExampleActionAsWritten | src/stata-help.tsx:427-433 | "Copy First Example" is offered iff `examples` is present, and copies the first example when there is one |
| StataHelp.FirstExampleActionAsWrittenCopiesUndefined | src/stata-help.tsx:427-433 | with an empty examples array the action is offered but copies `undefined` |
| StataHelp.FirstExampleAction | src/stata-help.tsx:427-433 | the action is offered iff there is a first example, which is exactly when the page does not show the fall-back text; it then copies that example, as the code does |

## Left out

- The keystroke automation behind "Open in Stata" and "Quick Describe" in Browse Stata Datasets (src/browse-datasets.tsx:142-158 and 199-203). It is AppleScript run through `osascript` and has no list or string logic to model.
- src/stata-do-file.ts and src/open-new-do-file.ts: their behaviour lives in AppleScript text and a fixed delay.
- The numeric part of `formatFileSize` (`Math.log`, `toFixed(1)`, `parseFloat`) is floating point. Only the integer choice of unit is modelled, and the size is a `nat`.
- Modification dates (`toLocaleDateString`) are not modelled. Neither is the date written into the template bodies.
- `localeCompare` is an abstract comparator. The sortedness lemma assumes it is a total preorder.
- Text.Lower maps only ASCII letters. `toLowerCase` also maps non-ASCII letters.
- Paths.JoinPath: the directory scan joins with this plain join rather than with `Paths.NodeJoin`. The two agree for absolute roots made of plain names and the plain entry names a directory listing returns (Paths.NodeJoinPlain, Paths.JoinPathStaysNormal); the model's entry names are not constrained to be such names. The Create Do File target, built from a typed name, uses `Paths.NodeJoin`.
- Files.AfterWrite: a failed write leaves a prefix counted in characters; Node writes bytes, so the part left may end inside a multi-byte character.
- `statSync` follows symbolic links, so a real tree can be cyclic. The model's tree is finite, and a link is whatever entry it resolves to.
- Grouping keeps the first-appearance order of directories, which is the order `Object.entries` gives for string keys. Integer-like keys would come first, but a `dirname` of an absolute path always starts with `/`, so none occurs.
- The Stata subprocess and its 30-second timeout are an oracle. A timeout reaches the model as a process error.
- The scratch-file names built from `tmpdir()` and `Date.now()` are parameters.
- The "Error processing results" catch (src/run-stata-code.tsx:125-130) guards rendering, which the model does not have.
- The result page's markdown (src/run-stata-code.tsx:23-51) is rendering.
- The `plutil` conversion and plist parsing are the `PlistRead` oracle. Non-string entries of `NSRecentDocumentPaths` are not modelled.
- The removal of the temporary XML file (src/recent-stata-do-files.tsx:38) is not modelled.
- Opening the created do-file in Stata, or revealing it in Finder (src/create-do-file.tsx:251-257), is an OS action and is not modelled.
- In CreateDoFile, the filesystem map stands for every path `existsSync` reports. A directory at the target path counts as existing, as it does in the code.
- The template texts, the reference table's contents, React state, toasts and the Raycast list, form and detail rendering are not modelled. Raycast's built-in search over list items is not modelled either.
- StataHelp.DetailShowsTips: this proves that the heading appears when tips are given. The converse is proved on the block (StataHelp.TipsBlockPresence), not on the whole page, because a command's own description or examples could contain the heading text.
- StataHelp.DetailShowsDocs: as for the tips, the converse is proved on the block (StataHelp.DocsBlockPresence).
- StataHelp.DetailShowsNoExamples: as for the tips, the converse is proved on the block (StataHelp.ExamplesBlockFallback).

## Findings

| source | as written | input that shows it | evidently intended | confidence | as-written member | corrected member |
|---|---|---|---|---|---|---|
| src/browse-datasets.tsx:41-43 | the unit is `sizes[i]` from a four-entry table, so an exponent of 4 or more reads past its end and prints `undefined` | a `.dta` file of 1099511627776 bytes (1 TiB) | a label from the table for every size, the largest unit for sizes beyond it | high, not executed | BrowseDatasets.UnitAsWrittenUndefinedAtOneTebibyte | BrowseDatasets.DisplayUnit |
| src/stata-help.tsx:427-433 | "Copy First Example" is shown whenever `examples` is present, and copies `examples[0]` | a reference whose `examples` is `[]`: the action is offered and copies `undefined`, while the page says "No examples available." | offer the action only when there is a first example | medium, not executed | StataHelp.FirstExampleActionAsWrittenCopiesUndefined | StataHelp.FirstExampleAction |
