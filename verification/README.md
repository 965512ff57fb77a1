# PDF tool core, modelled in Dafny

This project models the decision logic of a desktop PDF tool. The tool exists in six dated snapshots: 0107, 0112, 0118, 0122, 0128 and 0129. Under its Tk widgets and PDF-library calls are small algorithms that decide which pages, names and permission flags go where. Each of them is modelled here.

- **Page-range parser** (`PageRanges`). It turns a one-based text such as `1,3,5-7` into a sorted, deduplicated list of zero-based page indices, or into the first error. Both the 0112 `parse_page_ranges` and the older 0107 `_parse_page_ranges` are modelled, and they are proved to agree on every text once the document has pages.
- **Split** (`Split`). This covers:
  - keep mode, which keeps the targets, and delete mode, which keeps the ascending complement;
  - the guards of `split_pdf`: missing source, encrypted source, no pages, no targets, target out of range, nothing left;
  - the 0107 `run_split`, and the 0122 split tab's choice of targets and output name.
- **Page views** (`PageViews`, `PageOrder`). `PageThumbnailView` is a class whose fields are:
  - the page order, a list of original indices;
  - the rotation map keyed by original index;
  - the selection set and the current page.

  Its operations are loading, press and ctrl-press selection, the drag reorder of a block of selected pages and the release that ends the drag, one-step up/down moves, move to top/bottom, and rotation of the selected pages. `PageSelectView` holds a selection only. The methods that both 0128 and 0129 have behave the same in both versions, so one class models both; 0129 adds `move_selected_up`, `move_selected_down`, `move_selected_to_top` and `move_selected_to_bottom`. The one-step moves swap each selected page with its unselected neighbour, so selected pages that are apart stay apart (`PageOrder.MoveDownExample`: `[0,1,2,3]` with pages 0 and 2 selected becomes `[1,0,3,2]`).
- **File lists** (`FileLists`). A class holds the path list of the merge, compress, password and convert tabs. It models adding without duplicates, removing the selected rows back to front, and swap-based moves: the later tabs move the first selected row, and the 0107 application moves every selected row.
- **Compression preset search** (`Compress`). The level picks a starting rung on a fixed five-rung ladder of Ghostscript presets. With a target size, the search walks down the ladder until the output is at or under the target or the ladder ends. The model also covers batch compression and the compress tab's naming, skip and target logic.
- **Password protection** (`Protection`). The P entry starts at "everything allowed", and the named bits are cleared according to the chosen mode. These are the user access permissions of Table 22, section 7.6.3.2 of ISO 32000-1, held as a 32-bit word. The user password is chosen by mode. Unlocking fails in a fixed order: "not encrypted" first, then "wrong password". The password tab's checks on what the user entered, and its success/failure tally, are modelled too.
- **Merge and reorder** (`Merge`, `Reorder`). Merge checks every path first, then fails on the first unreadable or encrypted input, then concatenates pages in input order and reports progress per input. Reorder writes `pages[order[k]]` turned by `rotations[order[k]]`, with the angle normalised modulo 360.
- **Output names** (`Naming`, `Text`). `{name}` in a pattern is replaced by the source stem, and `.pdf` is appended when it is missing. Each tab has its own suffix default.
- **Drop-path tokenizer** (`DropPaths`). `split_dnd_paths` is a brace-aware character-level state machine over the string a drag-and-drop delivers.
- **Convert tab** (`Convert`). This is the task list of `run_convert`: the pattern, the Word and Excel paths, the overwrite questions and the skipped count.

The PDF library is replaced by an abstract `Document`: a sequence of pages, an encrypted flag, and the set of passwords that decrypt it. pypdf reads the pages of an encrypted file only when the empty password opens it; code that reads `reader.pages` without calling `decrypt` (locking a file, and the 0122 split tab's page count) fails on any other encrypted file. Ghostscript is a function from source and preset to an optional output size. The file system's `stat` and path checks, the overwrite dialog and float parsing are also function parameters.

Where the source runs loops that update state, the model is imperative: methods with loop invariants, proved against specification functions. Where the source is expressions, the model is functions and lemmas.

## Model

| member | source | states |
|---|---|---|
| PageRanges.Span | 0112/0112/src/services/pdf_split.py:77-78 | a zero-based page q is in the span of `start-end` exactly when start-1 ≤ q < end |
| PageRanges.PartPages | 0112/0112/src/services/pdf_split.py:58-93 | every page one comma-separated part accepts is below the page count |
| PageRanges.RangePages | 0112/0112/src/services/pdf_split.py:58-78 | a range part `a-b` succeeds exactly when both halves read as integers with `1 <= a <= b <= total`, and then yields the 0-based pages `a-1` to `b-1`; otherwise it fails with malformed, below-one, reversed or beyond-total, checked in that order |
| PageRanges.SinglePages | 0112/0112/src/services/pdf_split.py:79-93 | a single part `p` succeeds exactly when it reads as an integer with `1 <= p <= total`, and then yields the one 0-based page `p-1`; otherwise it fails with malformed, below-one or beyond-total, in that order |
| PageRanges.ParseSpec | 0112/0112/src/services/pdf_split.py:47-95 | a successful parse is strictly increasing, so sorted and free of duplicates, and every index is below the page count |
| PageRanges.Sorted | 0112/0112/src/services/pdf_split.py:95 | `sorted(pages)` of the collected set is strictly increasing and bounded |
| PageRanges.AddSpan | 0112/0112/src/services/pdf_split.py:77-78 | the range loop adds exactly the span to the set |
| PageRanges.AddPart | 0112/0112/src/services/pdf_split.py:58-93 | handling one part adds exactly that part's pages, or stops with its error |
| PageRanges.AddRange | 0112/0112/src/services/pdf_split.py:58-78 | the range branch adds the span or stops with the range's error |
| PageRanges.AddSingle | 0112/0112/src/services/pdf_split.py:79-93 | the single-page branch adds the page or stops with its error |
| PageRanges.CollectParts | 0112/0112/src/services/pdf_split.py:57-93 | the loop over the parts yields the fold of the per-part outcomes, stopping at the first failure |
| PageRanges.ParsePageRanges | 0112/0112/src/services/pdf_split.py:47-95 | the imperative parser returns exactly the specification `ParseSpec` |
| PageRanges.LegacyPartPages | 0107/app.py:1059-1077 | a part the 0107 parser accepts yields a non-empty set of pages below the page count |
| PageRanges.LegacyRangePages | 0107/app.py:1063-1072 | a 0107 range part yields a non-empty set of pages below the page count |
| PageRanges.CheckedSpan | 0107/app.py:1069-1072 | the 0107 page-by-page range check accepts only pages below the page count |
| PageRanges.AddCheckedSpan | 0107/app.py:1069-1072 | the 0107 inner loop adds the checked span or stops at the first page out of range |
| PageRanges.LegacySinglePages | 0107/app.py:1073-1077 | a 0107 single part yields one page below the page count |
| PageRanges.LegacySpec | 0107/app.py:1054-1079 | a successful 0107 parse is strictly increasing and bounded by the page count |
| PageRanges.LegacyAddPart | 0107/app.py:1059-1077 | one iteration of the 0107 part loop adds that part's pages or stops with its error |
| PageRanges.LegacyCollectParts | 0107/app.py:1057-1078 | the 0107 part loop yields the fold of the per-part outcomes |
| PageRanges.LegacyParsePageRanges | 0107/app.py:1054-1079 | the imperative 0107 parser returns exactly `LegacySpec` |
| PageRanges.CombineMeaning | 0112/0112/src/services/pdf_split.py:57-95 | folding the parts succeeds iff every part succeeds; the result is the union of their pages; a failure carries the error of the first failing part |
| PageRanges.ParseSpecMeaning | 0112/0112/src/services/pdf_split.py:47-95 | the parse succeeds iff every non-blank part is valid; a page is chosen iff some part names it; an error is the first failing part's |
| PageRanges.SortedMeaning | 0112/0112/src/services/pdf_split.py:95 | sorting the union keeps success, membership and the first error of the parts |
| PageRanges.ParseSpecFold | 0112/0112/src/services/pdf_split.py:47-57 | with pages present, the parse is the sorted fold over the stripped, non-blank parts |
| PageRanges.PartAgrees | 0107/app.py:1063-1077 | the 0107 and 0112 parsers accept the same parts, with the same pages |
| PageRanges.LegacyAgrees | 0107/app.py:1054-1079 | for a document with pages, both parsers accept the same texts and return the same list |
| PageRanges.LegacyWithoutPages | 0112/0112/src/services/pdf_split.py:47-48 | with no pages the 0112 parser returns `[]` for every text, while the 0107 parser fails on any text with a part |
| PageRanges.DocumentedExample | 0112/0112/src/services/pdf_split.py:42-43 | `"1,3,5-7"` over ten pages gives `[0, 2, 4, 5, 6]` |
| Split.FirstOutOfRange | 0112/0112/src/services/pdf_split.py:150-155 | the index of the first target outside the document, or the length when all are inside |
| Split.TargetSet | 0112/0112/src/services/pdf_split.py:159-161 | `set(targets)` holds exactly the targets |
| Split.KeptMeaning | 0112/0112/src/services/pdf_split.py:157-165 | the kept pages are strictly increasing and in range: keep mode holds exactly the targets, delete mode exactly the other pages |
| Split.KeepDeletePartition | 0112/0112/src/services/pdf_split.py:157-165 | keep and delete over the same targets partition the document's pages |
| Split.CheckTargets | 0112/0112/src/services/pdf_split.py:150-155 | the range-check loop finds `FirstOutOfRange` |
| Split.CopyPages | 0112/0112/src/services/pdf_split.py:171-173 | the writer receives the source pages at the kept indices, in order |
| Split.SplitPdf | 0112/0112/src/services/pdf_split.py:126-192 | the imperative `split_pdf` returns exactly the specification `SplitSpec` |
| Split.SplitSucceeds | 0112/0112/src/services/pdf_split.py:129-168 | a split succeeds iff the mode is known, the source opens unencrypted with pages, the targets are non-empty and in range, and delete mode leaves a page |
| Split.SplitWrites | 0112/0112/src/services/pdf_split.py:157-184 | a successful split reports the page counts and writes, in order, exactly the source pages at the kept indices |
| Split.Kept0107 | 0107/app.py:1002-1008 | 0107 keep mode keeps the targets; delete mode keeps exactly the pages not targeted |
| Split.Targets0107 | 0107/app.py:981-1000 | typed text takes the 0107 parser's pages, an empty text takes the thumbnail selection; either way the targets are non-empty |
| Split.OutPath0107 | 0107/app.py:1018-1025 | the 0107 output name is the entry (with `.pdf` ensured) or the mode's default name, in the chosen or the source folder |
| Split.RunSplit0107 | 0107/app.py:941-1029 | a successful 0107 split has a non-empty kept list, computed from the chosen targets, and a `.pdf` output |
| Split.RunSplit0107Keeps | 0107/app.py:1002-1012 | what a 0107 split keeps, stated against the typed text or the selection |
| Split.TextTakesPrecedence | 0122/src/ui/split_tab.py:100-123 | typed text decides the targets whatever is selected; otherwise the selection is used, and no selection is an error |
| Split.TabOutputName | 0122/src/ui/split_tab.py:125-129 | the tab's output name ends in `.pdf`, and a blank entry gives the mode's default name |
| Split.RunSplitTabMeaning | 0122/src/ui/split_tab.py:78-148 | a successful run writes a `.pdf` and its result is the split of the chosen targets |
| Split.LockedSourceStopsTab | 0122/src/ui/split_tab.py:104-110 | a source whose pages need an open password stops the tab with the read error, whatever the range text, selection or overwrite answer |
| Split.OpenEncryptedRefused | 0122/src/ui/split_tab.py:104-148 | an encrypted source that the empty password opens is read, and `split_pdf` then refuses it |
| Compress.LevelToStartIndex | 0122/src/services/pdf_compress.py:56-57 | level 1–5 starts at rung level−1; lower levels clamp to the first rung, higher to the last |
| Compress.LevelStart0107 | 0107/app.py:1635-1645 | the 0107 level-to-preset table always names a rung of the ladder |
| Compress.LevelStartsAgree | 0107/app.py:1635-1650 | the 0107 table and the later clamp choose the same rung for every level |
| Compress.SliderLevel | 0128/src/ui/compress_tab.py:148-156 | the slider value is clamped to 1–5, with 3 when it cannot be read |
| Compress.SliderStartsAtLevel | 0128/src/ui/compress_tab.py:148-156 | a clamped slider level starts at rung level−1 |
| Compress.StartAt | 0122/src/services/pdf_compress.py:154-155 | a start index out of range falls back to a valid rung; an in-range start is kept |
| Compress.LastTried | 0122/src/services/pdf_compress.py:164-175 | the search ends on a rung at or after the start |
| Compress.LastTriedMeaning | 0122/src/services/pdf_compress.py:164-175 | the search stops at a rung that fails, meets the target or is the last; every rung before it produced a file above the target |
| Compress.LastTriedUnique | 0122/src/services/pdf_compress.py:164-175 | the stopping rung is the first one that stops, and no other |
| Compress.CompressAt | 0122/src/services/pdf_compress.py:165-168 | one Ghostscript call succeeds iff it produces a file, and the result records the preset and both sizes |
| Compress.FinalRung | 0122/src/services/pdf_compress.py:155-175 | the rung the auto search ends on is on the ladder |
| Compress.AutoOutcome | 0122/src/services/pdf_compress.py:146-193 | a missing source fails first; a success reports this source, this output and the original size |
| Compress.AutoMeetsTarget | 0122/src/services/pdf_compress.py:164-175 | with a target, the result meets it or used the last rung, and every rung skipped over exceeded the target |
| Compress.CompressPdfAuto | 0122/src/services/pdf_compress.py:140-193 | the `while True` loop tries exactly the rungs from the start to the final rung and returns `AutoOutcome` |
| Compress.SearchLadder0107 | 0107/app.py:1722-1737 | the 0107 search loop tries the rungs from the start to `LastTried` and returns that rung's outcome |
| Compress.BatchStart | 0122/src/services/pdf_compress.py:231-234 | a batch with a target starts at the first rung; otherwise at the level's rung |
| Compress.CompressPdfs | 0122/src/services/pdf_compress.py:222-267 | the result is `BatchOutcome`: mismatched lengths fail before any file; otherwise each source is compressed in order, a success lists every result, a failure is the first failing file's, and the files after it are not attempted |
| Compress.BuildCompressTasks | 0128/src/ui/compress_tab.py:194-214 | sources whose overwrite is refused are skipped, the rest kept in order, each with its derived output path |
| Compress.ReadTarget | 0128/src/ui/compress_tab.py:172-181 | a blank entry means no target; a non-number is an error; otherwise the positive parsed size |
| Compress.RunCompressTab | 0128/src/ui/compress_tab.py:158-243 | the guards (no files, no Ghostscript, bad target) in that order; past them the run either skips every file or compresses the files whose overwrite was allowed, and its outcome is `compress_pdfs` on those files, their derived output paths, the slider level and the entered target |
| Compress.CompressKept | 0128/src/ui/compress_tab.py:194-243 | past the guards the run either skips every file (none may be written) or hands the kept files and their derived output paths to `compress_pdfs` |
| Compress.AutoAllMeaning | 0122/src/services/pdf_compress.py:222-267 | the batch succeeds iff every source compresses, result k is source k's, and a failure is the first failing source's |
| Compress.AutoAllSuccess | 0122/src/services/pdf_compress.py:236-262 | the success half: every source compresses, and the results are theirs in order |
| Compress.AutoAllFailure | 0122/src/services/pdf_compress.py:236-262 | the failure half: the error is that of a source before which every source compressed |
| Compress.TargetOf | 0128/src/ui/compress_tab.py:171-180 | a positive number entered is the target in megabytes; anything else passes no target |
| Compress.OutPathsFor | 0128/src/ui/compress_tab.py:194-214 | output k is the derived output path of source k |
| Protection.PermsFor | 0122/src/services/pdf_password.py:24-41 | the copy bits are allowed iff copying is not forbidden and no open password is required; the same for print; no other bit is cleared |
| Protection.UserPasswordFor | 0122/src/services/pdf_password.py:43 | the user password is the owner password when opening is locked, otherwise empty |
| Protection.NarrowPermissions | 0122/src/services/pdf_password.py:24-41 | the `&= ~flag` steps compute `PermsFor` |
| Protection.CopyAll | 0122/src/services/pdf_password.py:21-22 | the writer receives every page, in order |
| Protection.LockSpec | 0122/src/services/pdf_password.py:18-50 | locking succeeds iff the source reads and its pages open without a password (`reader.pages` is read with no `decrypt`), every failure is the read error, and a success keeps the pages and the owner password |
| Protection.SetPdfPassword | 0122/src/services/pdf_password.py:15-50 | the imperative `set_pdf_password` returns exactly the specification `LockSpec`, failing on a source whose pages need an open password |
| Protection.RemovePdfPassword | 0122/src/services/pdf_password.py:52-71 | the imperative `remove_pdf_password` returns exactly `UnlockSpec` |
| Protection.UnlockSpec | 0122/src/services/pdf_password.py:52-63 | unlocking succeeds iff the file is encrypted and the password opens it, and yields its pages; otherwise "not encrypted" or "wrong password" |
| Protection.LockThenUnlock | 0122/src/services/pdf_password.py:15-63 | a locked file unlocks with the owner password to the original pages, and any other password but the user password is refused |
| Protection.LockedTwice | 0122/src/services/pdf_password.py:19-22 | a file locked with a non-empty open password cannot be locked again; one locked without an open password can |
| Protection.NotEncryptedFirst | 0107/app.py:1348-1356 | an unencrypted file reports "not encrypted" whatever password is given |
| Protection.Deny0107Bits | 0107/app.py:1311-1317 | the five flags 0107 clears are modify, assemble, annotate, fill forms and extract |
| Protection.Perms0107Meaning | 0107/app.py:1307-1328 | the 0107 P value denies those five, allows print iff asked, and keeps every other bit |
| Protection.ClearEach | 0107/app.py:1319-1322 | clearing flags one at a time equals clearing their union |
| Protection.NarrowPermissions0107 | 0107/app.py:1307-1335 | the 0107 flag loop computes `Perms0107` with an empty user password |
| Protection.SetIntentOf | 0129/src/ui/password_tab.py:150-171 | view mode needs its password; restrict mode needs a password and at least one restriction; an accepted intent carries the stripped entry of its mode as password, no restriction in view mode and exactly the ticked boxes in restrict mode |
| Protection.IntentProtects | 0129/src/ui/password_tab.py:153-171 | an accepted intent always denies copying or printing, and view mode sets a non-empty user password |
| Protection.PatternOr | 0129/src/ui/password_tab.py:173-175 | a blank pattern falls back to the default, otherwise the stripped pattern |
| Protection.Tally | 0129/src/ui/password_tab.py:180-206 | the worker counts the written files; the failed ones are exactly the others, in order |
| Protection.ExecuteSet | 0129/src/ui/password_tab.py:150-206 | no files and a rejected intent warn first, an accepted intent always runs; a finished run counts the files written and lists every other file |
| Protection.TypedPasswordUnlocks | 0129/src/ui/password_tab.py:150-171 | the password typed on the set side opens the locked file and gives its pages back; in view mode a blank password does not open it |
| Protection.SetThenRemoveWrites | 0129/src/ui/password_tab.py:239-275 | a file the set side locked, unlocked with the same entry, is written unless its overwrite is declined |
| Protection.ViewLockedNotSetAgain | 0129/src/ui/password_tab.py:184-206 | a file the set tab locked in view mode, given to the set tab again, is listed as failed, or skipped when its overwrite is declined, whatever is asked the second time |
| Protection.ExecuteRemove | 0129/src/ui/password_tab.py:239-275 | no files, then a blank password, warn first, a non-blank password always runs; a finished run counts the files written and lists every other file |
| FileLists.AddedMeaning | 0122/src/ui/merge_tab.py:172-180 | adding keeps the old list as a prefix, holds exactly the old and new paths, and keeps the list free of duplicates |
| FileLists.AddedTwice | 0122/src/ui/merge_tab.py:175-179 | adding the same files again changes nothing |
| FileLists.AlreadyListed | 0122/src/ui/merge_tab.py:175-179 | adding only listed paths changes nothing |
| FileLists.KeepUnselectedMeaning | 0122/src/ui/merge_tab.py:198-205 | removal keeps exactly the unselected rows, in order |
| FileLists.KeepAllUnselected | 0122/src/ui/merge_tab.py:198-205 | with nothing selected in range, the list is unchanged |
| FileLists.DeletePositions | 0122/src/ui/merge_tab.py:202-204 | deleting the selected indices back to front leaves the unselected rows |
| FileLists.FirstUpThenDown | 0122/src/ui/merge_tab.py:213-231 | moving a row up swaps it with the one above; moving it back down restores the list |
| FileLists.ShiftsFollowSelection | 0107/app.py:514-558 | after a 0107 move, every selected row sits one place up (or down) from where it was |
| FileLists.SwapSelectedUp | 0107/app.py:519-522 | the 0107 up loop yields the shifted list, a permutation of the old one |
| FileLists.SwapSelectedDown | 0107/app.py:544-547 | the 0107 down loop yields the shifted list, a permutation of the old one |
| FileLists.FileList.AddFiles | 0122/src/ui/merge_tab.py:172-180 | the list becomes `Added(old list, new files)` |
| FileLists.FileList.AddFilesChecked | 0107/app.py:474-480 | the same, and returns how many paths were added |
| FileLists.FileList.RemoveSelected | 0129/src/ui/password_tab.py:101-108 | the list becomes the old list without the selected rows |
| FileLists.FileList.MoveFirstUp | 0122/src/ui/merge_tab.py:213-221 | the first selected row moves up one place and the focus follows it; the top row stays |
| FileLists.FileList.MoveFirstDown | 0122/src/ui/merge_tab.py:223-231 | the first selected row moves down one place and the focus follows it; the bottom row stays |
| FileLists.FileList.MoveSelectionUp | 0107/app.py:514-533 | nothing moves when the selection is empty or holds the top row; otherwise every selected row moves up and the selection follows |
| FileLists.FileList.MoveSelectionDown | 0107/app.py:535-558 | nothing moves when the selection is empty or holds the bottom row; otherwise every selected row moves down and the selection follows |
| Merge.FirstBadPath | 0118/src/services/pdf_merge.py:56-60 | the index of the first input that is not a regular file, or the length |
| Merge.FirstUnmergeable | 0118/src/services/pdf_merge.py:66-75 | the index of the first input that cannot be read or is encrypted, or the length |
| Merge.AddPages | 0118/src/services/pdf_merge.py:78-79 | the writer gains the input's pages at its end |
| Merge.AppendInputs | 0107/app.py:726-744 | the read-and-append loop yields all inputs' pages, with one progress report per input read |
| Merge.MergePdfs | 0118/src/services/pdf_merge.py:47-97 | the imperative `merge_pdfs` returns exactly `MergeSpec`; no progress is reported when a path check fails |
| Merge.MergeSucceeds | 0118/src/services/pdf_merge.py:52-83 | a merge succeeds iff there is an input, every input is a file, and every file reads unencrypted |
| Merge.PathsCheckedFirst | 0118/src/services/pdf_merge.py:55-66 | a bad path fails the merge before any file is read |
| Merge.EncryptedStopsMerge | 0118/src/services/pdf_merge.py:66-75 | the first encrypted input stops the merge with its name |
| Merge.AllPagesAppend | 0118/src/services/pdf_merge.py:66-79 | the pages of two input lists are the pages of each, concatenated |
| Merge.MergedInOrder | 0118/src/services/pdf_merge.py:66-79 | the merged document is the inputs' pages in input order |
| Merge.MergeFolder | 0122/src/ui/merge_tab.py:247 | the output folder is the entry, else the first input's folder |
| Merge.MergePlanFor | 0122/src/ui/merge_tab.py:233-251 | fewer than two files warn; a blank name never stops the merge; the output is a `.pdf` in that folder, written only if confirmed |
| Merge.MergePlanFor0112 | 0112/0112/src/ui/merge_tab.py:149-166 | the 0112 tab also refuses a blank name; otherwise the stripped name with `.pdf`, written only if confirmed |
| Merge.MergeTabsAgree | 0122/src/ui/merge_tab.py:240-251 | with a name typed, both versions of the tab plan the same merge |
| Merge.MergeDefaultOutput | 0122/src/ui/merge_tab.py:240-248 | with the name blank, 0112 refuses while 0122 uses the first file's default name |
| Merge.OrderSummaryMeaning | 0122/src/ui/merge_tab.py:107-116 | a joined order up to 80 characters is shown whole; a longer one shows a prefix of it and the file count |
| Naming.Stem | 0122/src/ui/split_tab.py:19-21 | the stem is a prefix of the file name, and a proper one only when cut at a dot that is neither first nor last |
| Naming.StemCut | 0122/src/ui/split_tab.py:19-21 | the cut is at the last dot (no dot follows it); the whole name is kept only when it has no interior dot or ends in a dot |
| Naming.SubstituteIsReplace | 0129/src/ui/password_tab.py:145 | the substitution is `str.replace("{name}", stem)` |
| Naming.TemplateYieldsStem | 0129/src/ui/password_tab.py:145 | a `{name}` template followed by a brace-free suffix yields the stem and that suffix |
| Naming.PatternName | 0129/src/ui/password_tab.py:144-147 | a pattern's name always ends in `.pdf`; without `{name}` it is the pattern with `.pdf` ensured |
| Naming.DefaultNames0107 | 0107/app.py:117-182 | every 0107 default PDF name ends in `.pdf` and starts with the source stem |
| Naming.BuildOutPath | 0129/src/ui/password_tab.py:144-148 | the output is in the chosen or the source folder, and its name ends in `.pdf` |
| Naming.TemplatePdf | 0129/src/ui/password_tab.py:144-147 | a template already ending in `.pdf` gets no second suffix |
| Naming.DefaultPasswordPatterns | 0129/src/ui/password_tab.py:173-175 | the default lock and unlock patterns name `<stem>_ロック済み.pdf` and `<stem>_解除済み.pdf` |
| Naming.CompressOutName | 0128/src/ui/compress_tab.py:197-205 | a blank pattern gives the default compress name, otherwise the pattern's name |
| Naming.CompressOutPath | 0128/src/ui/compress_tab.py:191-207 | the output is in the chosen or the source folder with that name |
| Naming.CompressPatternMatchesDefault | 0128/src/ui/compress_tab.py:66-71 | the default pattern names files as a blank pattern does |
| Naming.FolderOf | 0128/src/ui/compress_tab.py:191-192 | a blank folder entry means the source's own folder |
| Progress.PercentMonotone | 0118/src/services/pdf_merge.py:82-83 | progress percentages rise strictly with the number of inputs done |
| Progress.PercentBounds | 0118/src/services/pdf_merge.py:82-83 | every report lies in (0, 100], and the last is 100 |
| Progress.ReportsRise | 0118/src/services/pdf_merge.py:66-83 | the sequence of reports rises strictly, stays within (0, 100] and ends at 100 |
| Documents.Pick | 0107/app.py:1014-1016 | the picked pages are the source pages at the given indices, in order |
| PageViews.PageThumbnailView.Clear | 0129/src/components/page_views.py:447-464 | clearing empties order, rotations and selection |
| PageViews.PageThumbnailView.Load | 0129/src/components/page_views.py:403-445 | loading n pages gives the identity order, every angle 0, and the first page selected and current |
| PageViews.PageThumbnailView.ListPages | 0129/src/components/page_views.py:417-441 | the loading loop lists pages 0 to n−1 |
| PageViews.PageThumbnailView.RotateSelected | 0129/src/components/page_views.py:492-518 | only the rotations change, by `Rotated`; nothing changes with no selection or no document |
| PageViews.PageThumbnailView.TurnSelected | 0128/src/components/page_views.py:414-421 | the rotation loop over the order computes `Rotated` |
| PageViews.PageThumbnailView.Press | 0129/src/components/page_views.py:561-591 | ctrl-press toggles the page; a plain press selects it alone unless already selected and starts a drag; a miss changes nothing |
| PageViews.PageThumbnailView.Pick | 0129/src/components/page_views.py:582-585 | a plain press keeps a selection containing the page, else selects only it, and makes it current |
| PageViews.PageThumbnailView.Toggle | 0129/src/components/page_views.py:569-576 | ctrl-press adds or removes the page; an added page becomes current |
| PageViews.PageThumbnailView.Motion | 0129/src/components/page_views.py:604-658 | dragging changes only the order, to `DragOrder`; without a drag or a target nothing changes |
| PageViews.PageThumbnailView.Release | 0129/src/components/page_views.py:671-678 | releasing the button ends any drag, so a later `Motion` leaves the order alone until the next plain press; the order, rotations and selection are unchanged |
| PageViews.PageThumbnailView.Drag | 0129/src/components/page_views.py:616-652 | the motion handler's reorder computes `DragOrder` |
| PageViews.PageThumbnailView.CountBefore | 0128/src/components/page_views.py:560-565 | the counting loop computes `BeforeCount` |
| PageViews.PageThumbnailView.SelectedPositions | 0129/src/components/page_views.py:721-730 | the positions of the selected pages, strictly increasing and in range |
| PageViews.PageThumbnailView.MoveSelectedUp | 0129/src/components/page_views.py:715-738 | the order is permuted; nothing moves if the top page is selected; otherwise each selected page swaps one step up |
| PageViews.PageThumbnailView.SwapUp | 0129/src/components/page_views.py:733-734 | the swap loop yields `MovedUp`, a permutation |
| PageViews.PageThumbnailView.MoveSelectedDown | 0129/src/components/page_views.py:740-763 | the order is permuted; nothing moves if the bottom page is selected; otherwise each selected page swaps one step down |
| PageViews.PageThumbnailView.SwapDown | 0129/src/components/page_views.py:758-759 | the reverse swap loop yields `MovedDown`, a permutation |
| PageViews.PageThumbnailView.Partition | 0129/src/components/page_views.py:771-778 | the order splits into the selected and the unselected pages, each in order |
| PageViews.PageThumbnailView.MoveSelectedToTop | 0129/src/components/page_views.py:765-785 | the selected pages move, in order, before all others |
| PageViews.PageThumbnailView.GroupToTop | 0129/src/components/page_views.py:781 | selected then unselected is `ToTop` |
| PageViews.PageThumbnailView.MoveSelectedToBottom | 0129/src/components/page_views.py:787-807 | the selected pages move, in order, after all others |
| PageViews.PageThumbnailView.GroupToBottom | 0129/src/components/page_views.py:803 | unselected then selected is `ToBottom` |
| PageViews.PageThumbnailView.GetPageOrder | 0128/src/components/page_views.py:625-626 | the order lists every original page exactly once |
| PageViews.PageThumbnailView.GetPageRotations | 0129/src/components/page_views.py:712-713 | there is one angle per original page, each in [0, 360) |
| PageViews.PageSelectView.Load | 0129/src/components/page_views.py:160-202 | loading selects the first page, if any |
| PageViews.PageSelectView.Click | 0128/src/components/page_views.py:161-178 | ctrl-click toggles the page, a plain click selects only it; the clicked page becomes current |
| PageViews.PageSelectView.GetSelectedIndices | 0128/src/components/page_views.py:208-209 | the selection, sorted ascending |
| PageOrder.UpThenDown | 0129/src/components/page_views.py:715-763 | moving the selection up and then down restores the order |
| PageOrder.DownThenUp | 0129/src/components/page_views.py:715-763 | moving the selection down and then up restores the order |
| PageOrder.MoveDownExample | 0129/src/components/page_views.py:740-759 | order `[0,1,2,3]` with pages 0 and 2 selected moves down to `[1,0,3,2]` |
| PageOrder.BeforeCount | 0129/src/components/page_views.py:644-649 | the block's insertion point is at most the target and at most the unselected count |
| PageOrder.BlockMovedPermutes | 0129/src/components/page_views.py:641-652 | a block drag permutes the order |
| PageOrder.BlockMovedKeepsGroups | 0129/src/components/page_views.py:641-652 | a block drag keeps the relative order of the selected pages and of the others |
| PageOrder.BlockMovedContiguous | 0129/src/components/page_views.py:651-658 | after a block drag the selected pages are contiguous at the insertion point |
| PageOrder.SingleMovedMeaning | 0129/src/components/page_views.py:623-633 | dragging one page puts it at the (clamped) target and keeps the rest in order |
| PageOrder.SingleMovedInPlace | 0129/src/components/page_views.py:626-628 | dropping a page where it was changes nothing |
| PageOrder.ToTopBottomAreDrags | 0129/src/components/page_views.py:765-807 | move to top/bottom are block drags to the first/last position |
| PageOrder.ZeroAngles | 0129/src/components/page_views.py:409 | the initial rotation map gives every page angle 0 |
| PageOrder.RegroupPermutes | 0129/src/components/page_views.py:765-807 | move to top/bottom permute the order |
| PageOrder.Rotated | 0129/src/components/page_views.py:498-505 | the rotated map has entries for its old pages and the selected listed pages |
| PageOrder.RotatedMeaning | 0129/src/components/page_views.py:498-505 | angles stay in [0, 360); unselected pages keep theirs |
| PageOrder.TurnBack | 0129/src/components/page_views.py:504 | a turn by d and then by −d, each mod 360, restores an angle |
| PageOrder.RotateBack | 0129/src/components/page_views.py:492-505 | rotating the selection by d and then by −d restores the map |
| PageOrder.DragPermutes | 0129/src/components/page_views.py:604-658 | every drag, single or block, permutes the order |
| Reorder.Normalized | 0118/src/services/pdf_reorder.py:44 | the angle is normalised into [0, 360) and congruent mod 360 |
| Reorder.RotateCompatMeaning | 0118/src/services/pdf_reorder.py:26-71 | a multiple of 360 leaves the page alone; with no rotate API any other angle fails; with one, only the rotation changes, by the angle |
| Reorder.Emit | 0118/src/services/pdf_reorder.py:136-148 | a successful emission writes one page per order entry |
| Reorder.ReorderPdf | 0118/src/services/pdf_reorder.py:104-163 | the imperative `reorder_pdf` returns exactly `ReorderSpec`, reporting progress once per page |
| Reorder.EmitPages | 0118/src/services/pdf_reorder.py:136-148 | the emission loop computes `Emit` |
| Reorder.EmitStops | 0118/src/services/pdf_reorder.py:136-148 | the first page that cannot be rotated stops the reorder with its angle |
| Reorder.EmitWrites | 0118/src/services/pdf_reorder.py:136-144 | page k written is source page `order[k]` turned by its angle |
| Reorder.EmitSucceeds | 0118/src/services/pdf_reorder.py:47-69 | with a rotate API every in-range order is emitted |
| Reorder.ReorderMeaning | 0118/src/services/pdf_reorder.py:108-155 | a reorder succeeds iff the source opens unencrypted with pages and the order is non-empty and in range; then page k is source page `order[k]` turned by its angle |
| Reorder.NoApiFails | 0118/src/services/pdf_reorder.py:140-142 | without a rotate API only multiples of 360 succeed |
| Reorder.EmitIdentity | 0118/src/services/pdf_reorder.py:136-144 | the identity order with no rotations writes the pages unchanged |
| Convert.ConvertPattern | 0118/src/ui/convert_tab.py:144-146 | a blank pattern becomes `{name}` |
| Convert.OutputPath | 0118/src/ui/convert_tab.py:154-159 | each output (`.docx` for Word, `.xlsx` for Excel) carries the format's extension and lies in the chosen folder, else the source's |
| Convert.Wanted | 0118/src/ui/convert_tab.py:158-164 | an output is wanted iff its format is on and its overwrite is confirmed |
| Convert.TaskFor | 0118/src/ui/convert_tab.py:152-170 | a source is skipped iff neither output is wanted; a task keeps exactly the wanted outputs |
| Convert.Tasks | 0118/src/ui/convert_tab.py:152-170 | there are no more tasks than sources |
| Convert.TaskListed | 0118/src/ui/convert_tab.py:152-170 | every source not skipped has its task in the list |
| Convert.TaskFromSource | 0118/src/ui/convert_tab.py:152-170 | every task comes from a source not skipped |
| Convert.SourceTask | 0118/src/ui/convert_tab.py:153-165 | the loop body for one source computes exactly `TaskFor` |
| Convert.BuildConvertTasks | 0118/src/ui/convert_tab.py:149-170 | the task loop yields `Tasks`, and tasks plus skipped equal the sources |
| Convert.RunConvert | 0118/src/ui/convert_tab.py:128-174 | no files, then no format, warn first; a started run has tasks, and tasks plus skipped equal the sources |
| Convert.FinishLinesMeaning | 0118/src/ui/convert_tab.py:196-203 | the closing message has a skip line iff sources were skipped, and a failure line with total − success iff some task failed |
| DropPaths.Tokens | 0122/src/utils/file_utils.py:115-133 | no path produced is empty |
| DropPaths.ScanChars | 0107/utils.py:69-92 | the 0107 character loop computes `Tokens` |
| DropPaths.SplitDndPaths | 0122/src/utils/file_utils.py:108-135 | the later loop computes `Tokens`, and an empty drop gives no paths |
| DropPaths.BracedPath | 0122/src/utils/file_utils.py:116-123 | `{p}` emits exactly p, spaces included |
| DropPaths.BracedRoundTrip | 0122/src/utils/file_utils.py:115-133 | brace-free paths, braced and space-separated, come back as the same list |
| DropPaths.DropExample | 0122/src/utils/file_utils.py:103-106 | `{C:/a b.pdf} {C:/c.pdf}` gives the two paths |
| DropPaths.UnbracedTokens | 0122/src/utils/file_utils.py:124-133 | without braces the paths are the non-empty pieces between spaces |
| DropPaths.BraceDropsBuffer | 0122/src/utils/file_utils.py:116-118 | an opening brace discards the unfinished piece before it |
| Text.Strip | 0112/0112/src/services/pdf_split.py:50 | the stripped text starts and ends with a character that is not Python whitespace |
| Text.StripMeaning | 0112/0112/src/services/pdf_split.py:50 | the stripped text is a slice of the original, and every character cut off on either side is whitespace |
| Text.WideSpacesBlank | 0129/src/ui/password_tab.py:155 | an entry of an ideographic and a no-break space is blank |
| Text.WideLetterKept | 0129/src/ui/password_tab.py:155 | a trailing ideographic space after a full-width letter is stripped and the letter kept |
| Text.SplitOn | 0112/0112/src/services/pdf_split.py:55 | `split` gives one more piece than separators, none containing the separator, and joining them restores the text |
| Text.SplitOnce | 0112/0112/src/services/pdf_split.py:61 | `split("-", 1)` cuts at the first dash |
| Text.ParseInt | 0112/0112/src/services/pdf_split.py:62-63 | `int()` rejects blank text |
| Text.NonBlank | 0112/0112/src/services/pdf_split.py:55 | the kept parts are non-empty |
| Text.NonBlankIgnoresOuterSpace | 0112/0112/src/services/pdf_split.py:50-55 | stripping the text before splitting does not change the non-blank parts |
| Text.EnsurePdf | 0122/src/ui/split_tab.py:128-129 | the name ends in `.pdf`, gaining the suffix only if it lacked it |
| Text.PdfAppended | 0122/src/ui/split_tab.py:128-129 | a name built with `.pdf` keeps it as is |
| Text.NatToStringRoundTrip | 0118/src/ui/convert_tab.py:197 | the count printed in the message reads back as the same number |
| Seqs.Ascending | 0112/0112/src/services/pdf_split.py:95 | `sorted` of a set is strictly increasing with the same members |
| Seqs.WithoutIota | 0107/app.py:1008 | the complement comprehension lists the unselected indices in order |

## Left out

- The 0122 split tab imports `parse_page_ranges` from its own `src/services/pdf_split.py`, which is not part of this model. The 0112 parser stands in for it.
- `int()` is modelled as surrounding whitespace, an optional sign and ASCII digits. Python also accepts underscores between digits and non-ASCII digits; those are not modelled. `str.lower()` is modelled for ASCII letters only.
- Floating point: the target size and the Ghostscript output sizes in MB are reals, and file sizes are whole bytes. The slider's `round()` happens before the model: `SliderLevel` receives the rounded value, or None when it cannot be read.
- pypdf, Ghostscript, `stat`, path checks, the file system, dialogs and float parsing are function parameters: `Probe`, `Reader`, `confirm`, `Compressor`, `Stat`, `RotateApi`, `number`.
- Threads, `after` callbacks, message-box wording (except the convert tab's closing lines), rendering, drag visuals and scrolling are not modelled.
- `convert_pdfs` itself is not modelled; the number of successful conversions is a parameter.
- Path joining is modelled as a folder and a file name. Names that contain path separators are not treated specially.
- The service errors (`PDFSplitError`, `PDFMergeError`, `PDFReorderError`, `PDFPasswordError`) and their message texts become error constructors. The single-page below-one error carries the part text where the source's message prints the number.
- Reorder.ReorderPdf: the progress reported before a failure is not stated; only the progress of a successful run is.
- The `text or ""` fallback for a None page-range text is not modelled; the text is always a string.
- Creating the output folder (`mkdir(parents=True)`) and the writing of files are not modelled.
- The "reduced by N%" and MB figures of the compression report are not modelled.
- Protection.SetPdfPassword: the pypdf encryption algorithm is not modelled; a locked file is represented by its pages, its passwords and its P value.
- Reorder.ReorderMeaning: an order that names the same source page twice with a non-zero angle is not modelled as the source behaves. The source fetches `reader.pages[src_idx]` and rotates that same page object in place each time (0118/src/services/pdf_reorder.py:136-144), so the copies may carry the turn more than once, depending on how pypdf's `add_page` copies pages. The model turns each copy once by its angle. The page views hand over a permutation of the pages (`IsOrderOf` in their `Valid()`), and for a permutation the two agree.
- Reorder.EmitWrites: the same limit as `Reorder.ReorderMeaning` for an order that repeats a page with a non-zero angle.
- FileLists.FileList.AddFilesChecked: paths are compared as strings. The 0107 application (0107/app.py:476-477) and the 0128 compress tab (0128/src/ui/compress_tab.py:112-113) compare `Path` objects, which on Windows ignore letter case, so `C:\A.pdf` and `c:\a.pdf` count as the same file there and as two files in the model.
