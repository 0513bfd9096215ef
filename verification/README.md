# ts-doc-gen reference merge, modelled in Dafny

`ts-doc-gen` runs TypeDoc over a TypeScript package and then turns the many markdown
files TypeDoc writes into one `reference.md`. This project models that second half,
`src/index.ts` lines 65-154:

- **Path order** (`path_order.dfy`, module `PathOrder`). The globbed paths are sorted
  with a comparator that puts every path containing `".md"` before every path that
  does not. `Array.prototype.sort` is stable since ECMAScript 2019 (V8 7.0, Node 11);
  older V8 versions sorted arrays of more than 10 elements unstably. The model is an
  insertion sort, `SortPaths`, and `StableSortUnique` proves that every stable sort
  under that comparator gives the same order.
- **Merge loop** (`merge.dfy`, module `Merge`). Each sorted path gets one of four
  actions:
  - merged into the reference text and deleted;
  - deleted only (`SUMMARY.md`, `globals.md`);
  - kept (`README.md`);
  - removed as a directory.

  The loop's reads and decisions are the fold `BuildPlan`. `RunLoop` adds the two
  ways the loop body throws: `readFileSync` on a file that cannot be read, and
  `rmdirSync` on a directory that still has an entry. A directory has an entry when
  some path inside it (its name followed by "/") is still on disk: every path the
  loop has not reached yet, and every README it kept. `MergeLoop` mirrors the source
  loop statement by statement and is proved equal to `RunLoop`. File contents are an
  input map, and a missing key is a file that cannot be read.
- **Text passes** (`pipeline.dfy`, module `Pipeline`). The three literal global
  replaces run in source order. The regular-expression passes are function
  parameters.
- **Object-literal heading demotion** (`demotion.dfy`, module `Demotion`). The text is
  split on newlines. A one-flag scan over the lines adds a `#` to every heading inside
  an object literal's section, and the lines are joined again.
- **Whole pipeline** (`Pipeline.Generate`). It combines the steps above and returns
  the reference text together with the action taken on every path, or the error that
  ends the script with exit status 1 (the `catch` at lines 151-153).

The string primitives are in `text.dfy` (module `Text`):
- JavaScript's `includes` with a start position;
- `split`/`join` on one character;
- replace-all of a literal.

Sequence filtering is in `sequences.dfy` and the `Result` type in `results.dfy`.

The comparator and the loop test for `".md"` differently:
- The comparator searches from index 0 (`s.includes('.md')`, lines 71-72).
- The loop and its exclusions search from index 1 (`includes(x, 1)`, lines 85-86
  and 96).

The model keeps both tests as written. If every path is treated the same by both
tests, all directory removals come after all file actions (`RemovalsComeLast`). A
path that has `".md"` only at index 0 breaks this. An example is the directory
`.md/guide` when the output directory is `.md` (`DirectoryBeforeItsFile`,
`GuideExample`). Such a directory is sorted among the files, ahead of the file
`.md/guide/a.md` inside it. The loop tries to remove it while that file is still on
disk, `rmdirSync` throws, and the script exits with status 1. The file is never
merged and no text pass runs.

Nested directories stop the script too, even when the two tests agree. The glob
lists a directory before the directories inside it, and the sort keeps that order.
So the loop removes the parent while its child is still on disk
(`ParentBeforeChild`, `NestedExample` for `d/a`, `d/a/b`, `d/a/b/c.md`).

## Model

| member | source | states |
|---|---|---|
| Text.IncludesFrom | src/index.ts:85-86 | `includes(pat, from)` holds exactly when some occurrence of the pattern starts at or after `from`, with `from` clamped to the string's length |
| Text.JoinSplit | src/index.ts:131-146 | joining the pieces of `split('\n')` with `'\n'` gives back the original text |
| Text.SplitJoin | src/index.ts:131-146 | splitting the join of newline-free lines gives back those lines |
| Text.ReplaceAllAbsent | src/index.ts:118-123 | a global replace leaves a text without the pattern unchanged |
| Text.ReplaceAllLeftmost | src/index.ts:118-123 | a global replace rewrites the leftmost occurrence of the pattern, keeps the text before it, and resumes right after it |
| Text.ReplaceAllShrinks | src/index.ts:118-123 | a global replace whose replacement is no longer than the pattern never lengthens the text |
| PathOrder.Compare | src/index.ts:70-83 | the comparator returns -1 exactly when only the first path contains ".md", 1 exactly when only the second does, 0 exactly when both or neither do; the final `return undefined` is unreachable |
| PathOrder.CompareAntisymmetric | src/index.ts:70-83 | swapping the two paths negates the comparison |
| PathOrder.CompareTransitive | src/index.ts:70-83 | "not after" under the comparator is transitive, so the comparator is a consistent ordering for the sort |
| PathOrder.SortPaths | src/index.ts:70-83 | the sorted paths are the paths containing ".md" in glob order, followed by all other paths in glob order |
| PathOrder.SortPermutes | src/index.ts:70 | sorting neither adds nor drops a path (same multiset) |
| PathOrder.SortOrders | src/index.ts:70-83 | no sorted path compares after a later one |
| PathOrder.SortStable | src/index.ts:70-83 | within the ".md" group and within the other group, the glob order is kept |
| PathOrder.StableSortUnique | src/index.ts:70-83 | any ordered rearrangement that keeps each group's glob order equals `SortPaths`, so every stable sort under this comparator gives the same order |
| Merge.Classify | src/index.ts:84-101 | a path is merged exactly when ".md" occurs from index 1 and none of README.md, SUMMARY.md, globals.md do from index 1; it is unlinked exactly when, from index 1, ".md" occurs and README.md does not; it is removed as a directory exactly when ".md" does not occur from index 1 |
| Merge.ReadmeKept | src/index.ts:85-98 | a path is kept on disk, neither merged nor deleted, exactly when it contains README.md from index 1 |
| Merge.IndexPageDeletedOnly | src/index.ts:85-98 | a path is deleted without being merged exactly when it contains SUMMARY.md or globals.md and is not a README |
| Merge.BuildPlan | src/index.ts:84-102 | with every unlink and directory removal succeeding, the loop completes exactly when every merge-eligible path can be read, and then it takes one action per path |
| Merge.PlanActions | src/index.ts:84-102 | the k-th action is the classification of the k-th path |
| Merge.PlanReference | src/index.ts:86-95 | the reference text is the content of exactly the merge-eligible paths, in loop order, each followed by "\n\n<hr />\n\n" |
| Merge.PlanFailure | src/index.ts:86-88 | a failed loop reports the first merge-eligible path that cannot be read, and every eligible path before it was readable |
| Merge.UnreadableIsFirstMissing | src/index.ts:84-88 | the first unreadable path is the first merged file without content, so it depends only on which files are merged and in what order |
| Merge.RunLoop | src/index.ts:84-102 | the loop completes exactly when every merge-eligible path can be read and no directory still holds an entry when it is removed; it then gives the fold's plan; otherwise it stops at the first throwing path, reporting `NotEmpty` exactly when that path is a blocked directory and `Unreadable` exactly when it is the first unreadable file |
| Merge.AppendSection | src/index.ts:89-94 | the five appends after a file's content add exactly "\n\n<hr />\n\n" |
| Merge.MergeLoop | src/index.ts:84-102 | the statement-by-statement loop returns the same error, or the same reference text and actions, as `RunLoop` |
| Demotion.ScanLines | src/index.ts:132-145 | after each line the flag is set exactly when some earlier-or-current line contained "### ▪ **" and no line from that one on contained "___"; each output line is the input line, with a "#" added when the flag is set and the line contains "###" |
| Demotion.DemoteLoop | src/index.ts:130-145 | the loop with its mutable flag pushes one line per input line, each demoted exactly as the flag characterisation says |
| Demotion.UntouchedBeforeMarker | src/index.ts:133-145 | a line at or before which no line contained "### ▪ **" is left unchanged |
| Demotion.DemoteLinesShape | src/index.ts:140-144 | each line is either unchanged or gains exactly one "#", and it gains it exactly when the flag is set and the line contains "###" |
| Demotion.MarkerLineDemoted | src/index.ts:134-143 | the object-literal heading line itself drops one level, unless it also contains the divider |
| Demotion.DividerLineUntouched | src/index.ts:137-143 | a line containing "___" is never demoted, even if it also contains the marker |
| Demotion.HeadingUnderObjectLiteral | src/index.ts:133-145 | a "###" line at or after a marker line, with no divider from the marker up to it, drops one level |
| Demotion.HeadingAfterDivider | src/index.ts:133-145 | a line after a divider with no marker line in between keeps its level |
| Demotion.DemoteObjectLiterals | src/index.ts:130-146 | splitting the demoted text on newlines gives the demoted lines of the input text |
| Demotion.DemotionKeepsLineCount | src/index.ts:130-146 | demotion keeps the number of lines |
| Demotion.NoMarkerTextUnchanged | src/index.ts:130-146 | a text that never contains "### ▪ **" comes back unchanged |
| Pipeline.LiteralPasses | src/index.ts:117-123 | the three literal passes never lengthen the text |
| Pipeline.LiteralPassesIdentity | src/index.ts:117-123 | a text with none of "*Inherited from void*", "> #", "###  constructor" passes through unchanged |
| Pipeline.MergeOrderIsGlobOrder | src/index.ts:70-86 | the merged files are the merge-eligible paths in glob order, because every merged path contains ".md" and the sort keeps the order among those |
| Pipeline.PlanOfSorted | src/index.ts:70-102 | the loop over the sorted paths succeeds exactly when every merge-eligible path is readable and every directory removal succeeds; its actions then cover every globbed path once, in sorted order; the reference text is the eligible files' sections in glob order |
| Pipeline.SortedRunUnreadable | src/index.ts:70-88 | a read failure of the loop over the sorted paths names the first unreadable merge-eligible path in glob order |
| Pipeline.Generate | src/index.ts:65-153 | the script succeeds exactly when every merge-eligible path is readable, no directory removal meets an entry and at least one file is merged; the written text is the merged sections after the link passes, the literal passes, the section passes and demotion, in that order; an unreadable-file failure names the first unreadable eligible path in glob order, with every earlier read and removal successful, a directory failure names the first blocked directory with every earlier read and removal successful, and "no reference file" is reported exactly when the loop completed |
| Pipeline.RemovalsComeLast | src/index.ts:70-101 | when both ".md" tests agree on every path, no file action follows a directory removal |
| Pipeline.DirectoryBeforeItsFile | src/index.ts:70-153 | a directory with ".md" only at index 0, followed by a merge-eligible file inside it, stays in front under the sort; its `rmdirSync` throws because the file is still on disk, and the script fails with that directory before reading the file |
| Pipeline.GuideExample | src/index.ts:70-101 | the directory ".md/guide" and the file ".md/guide/a.md" form such a pair |
| Pipeline.ParentBeforeChild | src/index.ts:70-153 | a directory globbed before its subdirectory and a readable merged file: the sort puts the file first, then the parent is removed while the child is on disk, and the script fails with the parent |
| Pipeline.NestedExample | src/index.ts:70-101 | "d/a", "d/a/b" and "d/a/b/c.md" meet those premises |

## Left out

- Command-line parsing with yargs (lines 13-45): the output directory and file extension only shape path names, which are inputs here.
- Running TypeDoc (lines 48-63): it is an external process, so its output files are the model's input paths and contents.
- File-system effects (lines 67-68, 88-100, 105, 148). The glob result is an input sequence and file contents are an input map. Unlinking, removing directories and writing the file are reported as `Action`s, not performed. Only the two throws that the paths and contents decide are modelled: an unreadable file and a directory with a path left inside it.
- Pipeline.Generate: its success condition does not cover throws that the path names cannot show. The model cannot tell a file from a directory by name. So it does not model `unlinkSync` on a directory whose name has ".md" from index 1, or `rmdirSync` on a file without ".md", both of which throw in Node. It also does not model a directory that is not empty because of entries the glob skips, such as dotfiles.
- Side effects before a failure are not part of the error value. When the loop stops at an unreadable file or a non-empty directory, the files it already deleted are not reported. The same holds for `NoReferenceFile`: by then every unlink and directory removal of lines 97 and 100 has already run, before the read at line 105 throws.
- The regular-expression passes (lines 107-116 and 124-127) are parameters of `Pipeline.Generate` and are applied in source order. Modelling JavaScript regular expressions with lookahead and lazy quantifiers is outside the model.
- Logging and `process.exit` (lines 149-154): these are modelled only as the success or failure of `Generate`.
- Byte buffers: `readFileSync` returns a Buffer that is appended and later decoded as UTF-8. The model works on strings throughout, so it assumes every file is valid UTF-8.
- PathOrder.StableSortUnique: the model assumes a stable `Array.prototype.sort`, as ECMAScript 2019 requires (V8 7.0, Node 11). Older V8 versions sorted arrays of more than 10 elements unstably, and for those the order inside each group is not modelled.
- Pipeline.LiteralPasses: its own contract only bounds the length. What the passes compute is characterised by the `Text.ReplaceAll` lemmas and by `Pipeline.LiteralPassesIdentity`.
