# Copy for LLM: a Dafny model of the pipeline

The extension copies a selection from the editor's file explorer to the clipboard as one
Markdown document for a language model. A run of the copy command has four steps:

1. It turns the clicked item or multi-selection into a list of targets.
2. It collects the regular files below those targets. It skips the `DEFAULT_IGNORE` names,
   deduplicates the files and sorts them.
3. It builds a header: the title, the workspace folder and the roots.
4. It appends the chosen sections, always in the order Tree, Files, Diagnostics:
   - **Tree:** an ASCII tree of every root.
   - **Files:** one fenced block per file. The block is tagged with the file's extension, and
     text over 700,000 UTF-8 bytes is cut to a head and a tail around a marker.
   - **Diagnostics:** the editor's problems for the selected files and for everything below
     the selected folders, grouped per file.

The model states this pipeline over an abstract filesystem and an abstract diagnostics registry,
as pure functions with contracts and lemmas. It has these modules:

- `FileSystem`: a map from path strings to what `stat` reports.
  - A missing path fails to stat.
  - A directory carries its `readdir` listing, or nothing when that listing fails.
  - It also holds the exclusion set and the reference notion `Reaches`, meaning "a file a walk
    from here should find".
- `Walker`: `normalizeTargets`, `collectFiles` and `walkDir`.
- `Sorting`: the orderings behind the two sorts.
- `Strings`: code-unit string order, `join`, `basename` and decimal printing.
- `Seqs`: `map`, and `flatMap` with the position of each element's piece.
- `AsciiTree`: `renderTreeSection` and `renderAsciiTree`.
  - Each drawn line is kept as a row (prefix, branch glyph, name), so that its parts can be
    talked about.
- `FileFormat`: `renderFilesSection` and `formatFileContent`.
- `Diagnostics`: `collectDiagnostics`, `renderDiagnosticsSection` and `severityLabel`.
- `Output`: `buildOutput` and the command handler.

Everything the host provides is a parameter:

- the filesystem;
- the first workspace folder's path;
- `path.normalize`, `path.relative` and `vscode.workspace.asRelativePath`;
- the diagnostics registry.

`path.join` is `/`-concatenation.

The Files section follows the code as written, including the size guard's flaw recorded under
"Findings". The corrected guard and the block built with it are modelled alongside.

## Model

| member | source | states |
|---|---|---|
| Walker.NormalizeTargets | src/extension.ts:60-65 | A non-empty multi-selection wins. Otherwise the result is the single clicked item, or nothing. It is empty exactly when both are absent, and it holds nothing that was not passed in. |
| Walker.WalkDir | src/extension.ts:113-145 | A directory already in `seen` yields no files and leaves `seen` as it was. Otherwise the directory joins `seen`, every emitted path is a regular file it reaches, and every directory entered is closed: each of its visible entries has been emitted or entered. |
| Walker.WalkEntries | src/extension.ts:125-142 | The entry loop threads `seen` from one entry to the next. Every emitted file is reached through one of the listed names, and every listed name that is not excluded and stats has been dealt with. |
| Walker.WalkEntry | src/extension.ts:126-141 | One entry is handled as follows. An excluded or unstat-able name contributes nothing. A directory is walked, and a regular file is emitted. |
| Walker.ClosedWalkFindsAll | src/extension.ts:113-145 | Once every entered directory is closed, every file reachable from an entered directory has been emitted. |
| Walker.WalkFindsExactlyReachable | src/extension.ts:113-145 | A walk with an empty `seen` emits exactly the files the directory reaches, in both directions. |
| Walker.ReachedPathsAvoidExcluded | src/extension.ts:125-140 | On a filesystem whose names hold no `/`, a reached file lies strictly below the directory. No component of its path below the directory is an excluded name, neither its own name nor any directory above it. |
| Walker.WalkNeverEmitsExcluded | src/extension.ts:113-145 | Everything `walkDir` emits is a regular file below the directory, with no excluded name on the way down. |
| Walker.Gather | src/extension.ts:98-107 | The collection fails exactly when some target fails to stat, and it fails on the first such target, with a representative `ENOENT` message for it. Otherwise a path is gathered exactly when some target finds it: the target itself if it is a file, or a file it reaches if it is a directory. |
| Walker.CollectFiles | src/extension.ts:94-111 | The files are strictly ascending and are exactly the paths the targets find. The roots are the targets in their original order. A target that fails to stat fails the whole collection. |
| Walker.CollectedFilesAreDistinctFiles | src/extension.ts:94-111 | Collected files are regular files and appear once each, even when two targets reach the same file. |
| Walker.CollectingFilesOnly | src/extension.ts:98-110 | A selection of files only collects to those files, deduplicated and sorted, with the selection as roots. |
| Sorting.SortUnique | src/extension.ts:109 | Deduplicating and then sorting gives a strictly ascending list with exactly the input's elements. |
| Sorting.StrictlySortedUnique | src/extension.ts:109 | Two strictly ascending lists with the same elements are equal, so the collected list does not depend on the order of discovery. |
| Sorting.Sort | src/extension.ts:201 | Sorting a directory's entries gives an ascending permutation of them. |
| AsciiTree.VisibleNames | src/extension.ts:197 | A name is kept exactly when it is listed and not excluded. |
| AsciiTree.Entries | src/extension.ts:195-201 | A directory's entries are ascending, and they are exactly its listed, non-excluded names. |
| AsciiTree.RenderDir | src/extension.ts:194-216 | `recur(dir, prefix)`: the rows drawn for a directory. Its first row sits at the prefix itself. Its rows are pinned by three lemmas. `AsciiTree.RenderDirLevel` gives the rows at the prefix. `AsciiTree.RenderDirNesting` gives the rows right after a subdirectory's row. `AsciiTree.RenderDirCovered` says no other row exists. `AsciiTree.RenderDirShape` and `AsciiTree.RenderDirNoExcluded` add the tree shape and the exclusions. |
| AsciiTree.RenderEntries | src/extension.ts:202-215 | The `forEach` loop from one index on. Its first row sits at the prefix. Its properties are stated on `AsciiTree.RenderEntriesLevel`, `AsciiTree.RenderEntriesNesting`, `AsciiTree.RenderEntriesCovered` and `AsciiTree.RenderEntriesShape`. |
| AsciiTree.RenderDirShape | src/extension.ts:194-218 | The drawn rows form a tree below the prefix. Every row's prefix extends the prefix, and deeper rows continue with `│` or a space. Every branch is `├─ ` or `└─ `. A row steps in by at most its predecessor's continuation, which is three blanks after a corner and a bar after a tee. Which rows follow a subdirectory's row is stated on `AsciiTree.RenderDirNesting`. |
| AsciiTree.RenderEntriesShape | src/extension.ts:202-217 | The same tree shape, from any index of the entry loop on. |
| AsciiTree.RenderEntriesNesting | src/extension.ts:210-215 | From any index of the entry loop on: every row at the loop's prefix whose name is a subdirectory is followed directly by exactly the rows `recur` draws for that subdirectory, with the prefix extended by the row's continuation (three blanks after a corner, a bar after a tee). |
| AsciiTree.RenderDirNesting | src/extension.ts:194-216 | The same for a whole directory: below each subdirectory's row come exactly that subdirectory's rows, one level deeper. A list holding only the subdirectory's row, without its children, does not meet this. |
| AsciiTree.RenderEntriesCovered | src/extension.ts:202-215 | From any index of the entry loop on, a row off the loop's prefix lies within the drawing that follows an earlier subdirectory row at the prefix. Nothing is drawn below a file's row or outside a subdirectory's own rows. |
| AsciiTree.RenderDirCovered | src/extension.ts:194-216 | The same for a whole directory. Together with `AsciiTree.RenderDirLevel` and `AsciiTree.RenderDirNesting`, every row of the drawing is accounted for. |
| AsciiTree.RowBelowFileNotCovered | src/extension.ts:213-214 | `/r` lists the single file `a`. The rows `└─ a` followed by an invented `   └─ zzz` fail the coverage property, because only a directory's row is followed by deeper rows. |
| AsciiTree.SubdirectoryLevel | src/extension.ts:194-216 | The level facts hold at every depth: for a subdirectory's row, the rows right after it name exactly that subdirectory's visible children in ascending order, with the corner exactly on its greatest listed name when that name stats. |
| AsciiTree.RenderDirNoExcluded | src/extension.ts:194-218 | No row, at any depth, names an excluded entry. |
| AsciiTree.RenderEntriesLevel | src/extension.ts:202-217 | At a directory's own prefix, the loop draws exactly the remaining entries that stat, in ascending order. The entry at the last index gets the corner when it stats, and no other entry ever does: when the last entry fails to stat, the last row drawn keeps the tee. Nothing at that level follows a corner. |
| AsciiTree.RenderDirLevel | src/extension.ts:194-218 | A directory's own rows name exactly its visible children, in ascending order. The corner is drawn exactly on the greatest listed, non-excluded name, and only when that name stats; that row is the last one at its level. |
| AsciiTree.RenderAsciiTree | src/extension.ts:192-219 | There is one line per drawn row. A line is the row unchanged exactly when the row starts with the display name; otherwise it is the row indented by two spaces. |
| AsciiTree.EveryLineIndented | src/extension.ts:218 | When the display name starts with neither a continuation character nor a branch glyph, every line is indented by two spaces. |
| Strings.Basename | src/extension.ts:184 | POSIX `path.basename`: the result holds no `/` and is no longer than the path. A name without `/` is its own basename. |
| Strings.BasenameOfJoin | src/extension.ts:184 | The basename of `dir/name`, for a non-empty name without `/`, is that name. |
| AsciiTree.RootBlocks | src/extension.ts:183-187 | Every root's basename is among the lines of the root blocks. |
| AsciiTree.BlockAt | src/extension.ts:183-187 | For any way of drawing one root, the block of root `k` is its basename followed by that root's lines, and it starts after one name line plus the tree lines of each earlier root. |
| AsciiTree.RootBlockAt | src/extension.ts:183-187 | In root order, the block of root `k` is its basename followed by the lines `renderAsciiTree(root, basename(root))` draws, right after the blocks of the earlier roots. |
| AsciiTree.RootBlocksLength | src/extension.ts:183-187 | Nothing follows the last root's block. |
| AsciiTree.TreeSectionLines | src/extension.ts:181-190 | The lines open with the heading and the `text` fence. The root blocks follow, and the closing fence and a blank line end them. |
| AsciiTree.RenderTreeSection | src/extension.ts:181-190 | The section text starts with the heading and the opening fence, and ends with the closing fence on a line of its own followed by a newline. |
| FileFormat.Utf8Length | src/extension.ts:244 | The UTF-8 length is between one and three bytes per code unit. |
| FileFormat.SliceHead | src/extension.ts:246 | `slice(0, n)` is a prefix of length at most `n`. |
| FileFormat.SliceLast | src/extension.ts:248 | `slice(-n)` is a suffix of length at most `n`. It is the whole text when the text is shorter than `n`. |
| FileFormat.TruncateAsWritten | src/extension.ts:243-249 | Text within the limit is unchanged. Text over the limit becomes its first 350,000 code units, the marker and its last 350,000 code units, each slice clamped to the whole text when the text is shorter. |
| FileFormat.TruncationAsWrittenDuplicates | src/extension.ts:243-249 | 250,000 copies of `€` are 750,000 bytes. The guard as written emits them twice, once on each side of the marker. |
| FileFormat.Truncate | src/extension.ts:243-249 | Text within the limit is unchanged. Otherwise the result is the text's first `min(350000, n)` code units, the marker, and its last `min(350000, n - head)` code units, where `n` is the text's length. Together they keep `min(n, 700000)` code units and never the same one twice. The result is never longer than the text plus the marker. |
| FileFormat.TruncateAgreesOnLongText | src/extension.ts:243-249 | On text of at least 700,000 code units, the corrected guard and the guard as written agree. |
| FileFormat.ExtName | src/extension.ts:240 | The extension is empty, or it is a dot-led, dot-free proper suffix of the basename. It is non-empty exactly when the basename is not `..` and has a dot after its first character, so `a.txt` has an extension and `.bashrc` has none. |
| FileFormat.RemoveFirstDot | src/extension.ts:240 | Text without a dot is unchanged, and a leading dot is dropped. |
| FileFormat.ExtTag | src/extension.ts:240 | The fence tag is never empty and has no dot. It is `text` for a missing or bare-dot extension, and otherwise the extension without its dot. |
| FileFormat.ContentOf | src/extension.ts:232-237 | A readable file gives its text. A failed read gives `<<Unable to read file: `, then the error's message, or `unknown error` when it has none, then `>>`. |
| FileFormat.FormatFileContent | src/extension.ts:231-252 | The block is the relative path, the tagged fence, the text as the size guard as written leaves it, and the closing fence. That text can be cut back out of the block. |
| FileFormat.CorrectedFileContent | src/extension.ts:231-252 | The same block with the corrected size guard. |
| FileFormat.FileBlocksAgreeOutsideOverlap | src/extension.ts:243-251 | The block as written and the corrected block are equal unless the guard fires on text of fewer than 700,000 code units. |
| FileFormat.SmallFileVerbatim | src/extension.ts:243-251 | A readable file within the limit appears verbatim between the fences. |
| FileFormat.RenderFilesSection | src/extension.ts:223-229 | The section starts with its heading. |
| Diagnostics.SeverityLabel | src/extension.ts:308-321 | The label is `Unknown` exactly for values outside the four severities. Reading a label back gives the severity it came from. |
| Diagnostics.CodeSuffix | src/extension.ts:271 | The ` [code]` part is present exactly when the code is truthy. |
| Strings.IntToDecimalRoundTrip | src/extension.ts:271 | `String` of an integer code carries a leading `-` exactly when the code is negative. Its digits read back to the code's magnitude. |
| Strings.IntToDecimalNoLeadingZero | src/extension.ts:271 | The digits of `String` of an integer code have no leading zero: the first digit is `0` only for the code 0, and a negative code's first digit after the `-` is never `0`. |
| Diagnostics.Position | src/extension.ts:269 | The position is two digit strings around a colon. They read back as the line and the character, each plus one. Neither starts with `0`, since both values are at least one. |
| Diagnostics.DiagnosticLine | src/extension.ts:268-273 | A bullet is `- (`, the severity label, `) ` and the one-based position, then exactly the code part, then ` — `, then the message, with nothing else in between. |
| Diagnostics.Present | src/extension.ts:300 | `filter(Boolean)` keeps at most the list's length, and a diagnostic is kept exactly when the list holds it. |
| Diagnostics.PresentAppend | src/extension.ts:300 | Filtering distributes over concatenation, so the kept diagnostics stay in order. |
| Diagnostics.Selected | src/extension.ts:280-292 | The code tests membership in the set of normalised files. That is the same as: some selected file normalises to the path, or the path starts with some normalised root followed by the separator. |
| Diagnostics.SiblingOfRootNotSelected | src/extension.ts:291-292 | Root `/a/b` selects `/a/b/x` but not its sibling `/a/bc/x`. |
| Diagnostics.FirstIndexSpec | src/extension.ts:286-287 | The first-occurrence index points at a report with that path, and no earlier report has that path. |
| Diagnostics.GroupRaw | src/extension.ts:286-296 | The first loop makes at most one group per report, and every group's path is selected. Order and contents are stated on `Diagnostics.GroupRawInv`. |
| Diagnostics.GroupRawInv | src/extension.ts:286-296 | After the first loop, the groups come in the order their paths first occur in the registry. Each group is a selected path holding all of that path's diagnostics in registry order, and every selected path of the registry has a group. |
| Diagnostics.Prune | src/extension.ts:299-303 | The second loop keeps at most the groups it is given, and no group it keeps is empty. Which groups survive, and with what, is stated on `Diagnostics.PruneMembers` and `Diagnostics.PruneOrdered`. |
| Diagnostics.PruneMembers | src/extension.ts:299-303 | Every group left after pruning is the filtered form of the group with its path, and it is non-empty. Every group with a present diagnostic survives. |
| Diagnostics.PruneOrdered | src/extension.ts:299-303 | Pruning keeps the groups in first-seen order. |
| Diagnostics.CollectDiagnostics | src/extension.ts:279-306 | There is one group per selected path that has a present diagnostic, with distinct paths in first-seen order. Each group holds exactly the present diagnostics the registry reports for its path, in registry order. |
| Diagnostics.GroupLines | src/extension.ts:266-275 | A group's lines are its heading, one bullet per diagnostic in order, and a blank line. |
| Diagnostics.GroupsLinesContents | src/extension.ts:265-276 | Every group heading and every diagnostic bullet appears among the lines. Every line is blank or starts with `#` or `-`. |
| Diagnostics.GroupAt | src/extension.ts:265-276 | The lines of group `k` sit among the groups' lines right after those of the groups before it, in the order of the map. Each earlier group takes its diagnostics plus two lines. |
| Diagnostics.SectionLines | src/extension.ts:256-277 | The lines start with the heading. With no groups they are exactly the heading, the notice and a blank line. Otherwise the notice never appears, and after the heading come exactly the groups' lines, one group after another. |
| Diagnostics.SectionText | src/extension.ts:256-277 | With no groups, the text is the heading, the notice and a trailing newline. Otherwise it is the heading, a newline and the groups' lines joined by newlines. |
| Diagnostics.RenderDiagnosticsSection | src/extension.ts:256-277 | The section starts with its heading. When nothing is collected, it is exactly the heading, the notice and a trailing newline. Otherwise it is the heading, a newline and the lines of the collected groups joined by newlines. |
| Output.ChosenSections | src/extension.ts:157-166 | A section is rendered exactly when it is chosen, and the rendered sections come in strictly increasing rank. |
| Output.FixedOrderIsUnique | src/extension.ts:157-166 | The Tree, Files, Diagnostics order is the only increasing-rank order of the chosen sections, whatever order the choice was made in. |
| Output.Rel | src/extension.ts:153 | Without a workspace the path is kept as it is. With one, the path is relative to the workspace, falling back to the basename when the relative path is empty. |
| Output.RootsLine | src/extension.ts:171-173 | One root gives ``Root: `…` ``. Several give `Roots:` followed by every root quoted, in order, joined by commas. |
| Output.HeaderLines | src/extension.ts:168-174 | The header is the title first, the workspace line only when there is a workspace, and the roots line last. |
| Output.WorkspaceLineIffWorkspace | src/extension.ts:168-174 | A `Workspace:` line is present exactly when the workspace path is non-empty. |
| Output.RenderSection | src/extension.ts:157-166 | Each section's text starts with its own heading. The Tree section is the text `renderTreeSection(roots)` draws, the Files section is `renderFilesSection(files)`, and the Diagnostics section is `renderDiagnosticsSection(files, roots)`. |
| Output.SectionTexts | src/extension.ts:157-166 | There is one text per chosen section, in document order. |
| Output.BuildOutput | src/extension.ts:147-177 | The document starts with the title. It is the header and a newline when no section is chosen. Otherwise it is the header, a blank line and the sections joined by newlines. |
| Output.Copy | src/extension.ts:23-49 | Nothing is selected exactly when there are no targets. The run is cancelled exactly when the section prompt is dismissed, and it fails exactly when a target does not stat. A copied text is the document built from the collected files, with the targets as roots and the chosen sections, and at least one file was collected. |
| Output.NoFilesWhenNothingFound | src/extension.ts:34-38 | After a successful collection, nothing is copied exactly when no target finds any file. |

## Left out

- The editor glue:
  - command registration;
  - the QuickPick prompt and its `lastChoices` memory;
  - the clipboard write;
  - the notifications.

  `Output.Copy` takes the prompt's answer as a parameter, and it returns an outcome instead of
  showing a message.
- Real file I/O and `async` sequencing are not modelled. The filesystem is a finite map, and
  each read or `stat` is a lookup in it.
- Symbolic links are left out. A directory's entries are plain names in the map. Termination
  comes from paths growing longer, and `seen` is modelled only as the membership test the code performs.
- `path.normalize`, `path.relative` and `vscode.workspace.asRelativePath` are uninterpreted
  parameters. `path.join` is modelled as `dir + "/" + name`. `path.basename` and `path.extname`
  are POSIX stand-ins, and their Windows behaviour is left out.
- `Sorting.Sort`: `localeCompare` is modelled by code-unit order, the same order as the default
  `sort`. Locale-specific collation is not modelled. The two orders differ, for example: the
  model puts `README.md` before `a.txt`, and `localeCompare` puts it after.
- `AsciiTree.RootBlocks`: its own contract states only that every basename is present. The
  layout of each root's block is stated on `AsciiTree.RootBlockAt`.
- `AsciiTree.RenderTreeSection`: its contract states the opening and the closing of the text.
  The lines between them are stated on `AsciiTree.TreeSectionLines` and
  `AsciiTree.RootBlockAt`.
- `FileFormat.Utf8Length`: one `char` is one UTF-16 code unit of the Basic Multilingual Plane.
  Surrogate pairs, which are four UTF-8 bytes per pair, are not modelled.
- `Diagnostics.CodeText`: a numeric code is an integer. Non-integer codes and the printing of
  floating-point numbers are not modelled.
- `Walker.Gather`: every failed `stat` is a path missing from the map, and the failure carries the
  `ENOENT` message for the first such target. Other `stat` errors, such as `EACCES`, `ENOTDIR` or
  `ELOOP`, and their messages are not modelled.
- `FileFormat.ReadFile`: the operating-system error texts are representative. The model does not
  reproduce the exact messages.
- `Diagnostics.SeverityLabel`: it labels the Information severity `Info`, as the code does,
  not `Information`.
- `Output.BuildOutput`: it requires at least one root. The code reads `roots[0]` without a guard,
  and `Output.Copy` only calls it after a successful collection of a non-empty target list.
- `FileFormat.RenderFilesSection`: its contract states only the heading. The content of each
  block is stated on `FileFormat.FormatFileContent`.

## Findings

| source | as written | input that shows it | evidently intended | confidence | as-written member | corrected member |
|---|---|---|---|---|---|---|
| src/extension.ts:243-249 | The size guard compares UTF-8 bytes with 700,000 but slices UTF-16 code units. When the text has fewer than 700,000 code units but more than 700,000 bytes, `slice(0, 350000)` and `slice(-350000)` overlap, and the overlapping part is emitted twice. | 250,000 copies of `€`: 750,000 bytes, so the guard fires. Both slices are the whole text, and the result is the text, the marker and the text again, longer than the input. | Keep a head and a tail that do not overlap, so that no text is duplicated and the result is never longer than the text plus the marker. | not executed | FileFormat.TruncateAsWritten, FileFormat.TruncationAsWrittenDuplicates, FileFormat.FormatFileContent | FileFormat.Truncate, FileFormat.CorrectedFileContent |
