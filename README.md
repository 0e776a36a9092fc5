# mdedit workspace model

This Dafny project models the core of mdedit, a terminal markdown editor.
The core is the split/tab workspace: a row of splits, each a strip of
tabs holding editor views, one active tab per split and one selected split.
Around it sit the editor commands that place, clone, close and synchronise
views, the per-document state (the dirty flag and the save serialiser), the
session part of the configuration file, the file list and the directory
tree.

The repository holds two generations of most of these. Both are modelled,
over the same values:

| module (file) | models |
|---|---|
| `Workspace` (workspace.dfy) | the arena of `split_tab.rs` as values: its invariant and every operation as a function, with the lemmas about them |
| `SplitTab` (splittab.dfy) | `SplitTabState` as a class whose methods loop and update fields as the source does, each proved equal to its `Workspace` function |
| `EditorOps`, `Editor` (editorops.dfy, editor.dfy) | the commands of `editor.rs`: where views go, reuse of an open view, close-all, save-as, split, the roll-forward of edits |
| `EditOps`, `Edit` (editcmds.dfy, edit.dfy) | the older commands of `edit.rs`, which also drive the file list |
| `Document` | the text buffer as the editor sees it (text, undo count, replay log), the disk, `save` with its line loop and `save_as` |
| `EditorFile`, `MdFile` | `MDFileState` construction, `text_changed` and `clone` of `editor_file.rs` and of the older `md_file.rs` |
| `Cfg`, `CfgState` | `cfg/mod.rs`: the small parsers, `load`, `store` and `store_file_state`, the INI round trips and the `MDConfig` class |
| `Config` | the older `config.rs`: fallbacks, defaults and the glob codec |
| `Ini` | the INI document as ordered key/value pairs with `get` and `set` |
| `FileList` | `file_list.rs`: the selection after a reload, `select`, `current_file` |
| `Fsys` | `fsys/mod.rs`: `load`, `load_filesys`, `load_current`, and `fs_recurse`'s tree build and stack flatten |
| `FsStructure` | the older recursive `fs_structure.rs` |
| `Host`, `Roots` (host.dfy) | the file system as an input value; `find_root` |
| `Paths`, `Strings`, `Sorting`, `Wrappers` | the `Path`, `str`, `sort`/`dedup` and `Option`/`Result` behaviour the code relies on |

A view is the value `View(id, path, changed, docType, buf, linenr, timer)`.
It stands for `MDFileState`: the focus flag becomes the number `id`, the line-number
widget becomes its scroll state `linenr`, and the parse-timer handle
becomes the flag `timer`. The arena is
`Arena(tabs, tabbed, selSplit, selTab)`: the views per split,
`TabbedState.selected()` per split, `sel_split`, and the active tab of the
selected split's tab strip as `split_tab.rs` caches it.

The commands of `editor.rs` use renamed fields of `split_tab.rs`. The
model reads `split_tab_file` as `tabs`, `split_tab` as `tabbed` and
`split` as `splitter`. The call to `assert_selection` is not part of this
model: `split_tab.rs` does not contain it.

## Model

| member | source | states |
|---|---|---|
| Workspace.EmptyValid | src/split_tab.rs:35-44 | the default arena has no split and no selection, and satisfies the invariant (every split non-empty, an active tab inside every split, a selected split that exists) |
| Workspace.Open | src/split_tab.rs:220-236 | `open` at any position up to one past the last split and one past the last tab keeps the invariant |
| Workspace.OpenShape | src/split_tab.rs:220-236 | a new split is added only for a position one past the last split; the target split grows by exactly the new view at `pos.1`; every other split, every other tab strip and the selection are unchanged |
| Workspace.OpenKeepsActive | src/split_tab.rs:226-233 | every split still shows the view it showed, because an active tab at or after the insertion moves up by one; a split without an active tab gets tab 0; the selected view stays selected |
| Workspace.OpenSelects | src/split_tab.rs:220-236 | opening a view and then selecting its position makes it the selected view; its split grows by one and every view in another split is unchanged |
| Workspace.OpenThenForPath | src/split_tab.rs:373-382 | after opening a file no view showed, `for_path` finds it exactly where it was opened |
| Workspace.Close | src/split_tab.rs:239-301 | `close` keeps the invariant, whether it removes a tab, fails to save it, or is given a position without a tab |
| Workspace.CloseMissing | src/split_tab.rs:239-242 | `close` of a position holding no tab returns Ok and changes neither the arena nor the disk |
| Workspace.CloseSaveFails | src/split_tab.rs:240-242 | when saving the tab fails, the error is returned and nothing is removed |
| Workspace.CloseRemoves | src/split_tab.rs:239-301 | when the save succeeds, the tab is removed exactly as `Remove` states, and the disk is what saving that view wrote |
| Workspace.Remove | src/split_tab.rs:245-295 | the removal step keeps the invariant |
| Workspace.RemoveShape | src/split_tab.rs:245-295 | every other tab keeps its order; a split whose last tab went is removed with its tab strip and the selected split shifts as `close` computes it; otherwise the other strips are untouched and the active tab still shows the same view, unless that view was removed, when the left neighbour (or the new first tab) becomes active |
| Workspace.RemoveSelection | src/split_tab.rs:269-295 | after the removal, the selection is None only when no split is left; otherwise it names an existing split |
| Workspace.RemoveKeepsSelected | src/split_tab.rs:246-294 | closing any tab other than the selected one leaves the same view selected, because the active tab and the selected split shift with the removal |
| Workspace.Select | src/split_tab.rs:304-314 | `select` keeps the invariant |
| Workspace.SelectSelects | src/split_tab.rs:304-314 | `select` of a tab that exists selects exactly it and touches no other split's active tab; a position holding no tab changes nothing |
| Workspace.SelectNext | src/split_tab.rs:317-327 | `select_next` keeps the invariant |
| Workspace.SelectNextMoves | src/split_tab.rs:317-327 | `select_next` moves the selection exactly one split to the right and reports true when that split exists; at the last split, or with nothing selected, it reports false and changes nothing |
| Workspace.SelectPrev | src/split_tab.rs:330-340 | `select_prev` keeps the invariant |
| Workspace.SelectPrevMoves | src/split_tab.rs:330-340 | the mirror image for the split to the left |
| Workspace.SelectNextPrev | src/split_tab.rs:317-340 | a successful move to the right followed by a move to the left restores the arena |
| Workspace.SelectedPos | src/split_tab.rs:343-350 | `selected_pos` is Some exactly when a split is selected; then it is that split and its active tab, a position that holds a view |
| Workspace.Selected | src/split_tab.rs:353-360 | `selected` is the selected position paired with the view there |
| Workspace.Update | src/split_tab.rs:363-370 | writing a view back through `selected_mut` or `for_path_mut` changes only that tab and keeps the layout and the invariant |
| Workspace.ForPath | src/split_tab.rs:373-382 | `for_path` returns a position showing `p` with no earlier position (split first, then tab) showing it; None exactly when no view shows `p` |
| Workspace.FindPath | src/split_tab.rs:373-382 | the outer loop: the first position from split `s` on whose view shows `p`, or None when there is none |
| Workspace.IndexOfPath | src/split_tab.rs:375-379 | the inner loop: the first tab from `t` on showing `p`, or None when there is none |
| Workspace.SaveSeqContract | src/split_tab.rs:397-404 | saving a row of views stops at the first failure; it succeeds exactly when no dirty view sits on a path that cannot be written, and then every view is clean; every view ends either unchanged or clean |
| Workspace.SaveTabsContract | src/split_tab.rs:397-404 | the same for split after split |
| Workspace.SaveAllContract | src/split_tab.rs:397-404 | `save` succeeds exactly when every dirty view can be written; then every view is clean; tab strips and selection are untouched |
| Workspace.Replay | src/split_tab.rs:407-426 | `replay` keeps the invariant and the shape of every split |
| Workspace.ReplayFansOut | src/split_tab.rs:407-426 | every view of `p` other than the originator gets the log applied once to its text; the originator and views of other paths are unchanged; no path changes |
| Workspace.FirstFocused | src/split_tab.rs:206-214 | the first split from `s` on whose shown view carries the focus, or None when no such split exists |
| Workspace.EstablishActiveSplit | src/split_tab.rs:201-217 | `establish_active_split` keeps the invariant and reports true exactly when it changed something |
| Workspace.EstablishSelectsFocused | src/split_tab.rs:201-217 | the first split showing the focused view becomes the selected split, at its active tab; nothing changes when no shown view has the focus; a second call changes nothing |
| SplitTab.SplitTabState.constructor | src/split_tab.rs:35-44 | the new arena is the empty one |
| SplitTab.SplitTabState.Open | src/split_tab.rs:220-236 | the in-place insertion leaves exactly `Workspace.Open` of the old state |
| SplitTab.SplitTabState.Close | src/split_tab.rs:239-301 | the in-place save and removal give exactly `Workspace.Close` of the old state and the disk |
| SplitTab.SplitTabState.RemoveTab | src/split_tab.rs:244-294 | removing a tab in place, with the active tab and, for a split left empty, the selected split adjusted, gives exactly `Workspace.Remove` of the old state |
| SplitTab.SplitTabState.Select | src/split_tab.rs:304-314 | exactly `Workspace.Select` |
| SplitTab.SplitTabState.SelectNext | src/split_tab.rs:317-327 | exactly `Workspace.SelectNext`, with its result |
| SplitTab.SplitTabState.SelectPrev | src/split_tab.rs:330-340 | exactly `Workspace.SelectPrev`, with its result |
| SplitTab.SplitTabState.ForPath | src/split_tab.rs:373-382 | the nested loop returns `Workspace.ForPath`, the first match in split-then-tab order |
| SplitTab.SplitTabState.Update | src/split_tab.rs:363-370 | exactly `Workspace.Update` |
| SplitTab.SplitTabState.SaveAll | src/split_tab.rs:397-404 | the nested save loop gives exactly `Workspace.SaveAll` |
| SplitTab.SaveViews | src/split_tab.rs:399-401 | the inner save loop gives exactly `Workspace.SaveSeq` |
| SplitTab.SplitTabState.Replay | src/split_tab.rs:407-426 | the nested loop gives exactly `Workspace.Replay` |
| SplitTab.SplitTabState.EstablishActiveSplit | src/split_tab.rs:201-217 | the loop gives exactly `Workspace.EstablishActiveSplit`, with its result |
| SplitTab.ForPathIs | src/split_tab.rs:373-382 | a position showing `p` with no earlier match is what `for_path` returns |
| EditorOps.NewPos | src/editor.rs:162-179 | the position `new` and `open` use is always one `open` accepts |
| EditorOps.New | src/editor.rs:162-179 | `new` keeps the invariant |
| EditorOps.NewSelectsNewView | src/editor.rs:162-179 | the fresh view goes right after the selected tab, or to (0, 0) with nothing selected, and is selected; views already open are kept |
| EditorOps.Reuse | src/editor.rs:219-239 | the view placed by `_open` leaves the arena's layout as it was |
| EditorOps.OpenAt | src/editor.rs:219-239 | `_open` keeps the invariant on success |
| EditorOps.OpenAtReuses | src/editor.rs:219-239 | when a view of `p` is open, its replay log is switched on and a clone of it with the same text is opened at `pos` and selected; only otherwise is the file read, and a read error leaves nothing opened; a read file is then the only view of `p` |
| EditorOps.Open | src/editor.rs:182-194 | `open` keeps the invariant on success |
| EditorOps.SplitPos | src/editor.rs:197-217 | the position `_open_split` uses is always one `open` accepts |
| EditorOps.SplitPosTargetsNext | src/editor.rs:197-217 | `_open_split` goes to the split right of the selected one, right after the tab that split shows, or to tab 0 of a new split after the last one |
| EditorOps.OpenSplit | src/editor.rs:197-217 | `_open_split` keeps the invariant on success |
| EditorOps.SelectOrOpen | src/editor.rs:296-308 | `select_or_open` keeps the invariant on success |
| EditorOps.SelectOrOpenNoDuplicate | src/editor.rs:296-308 | when `p` is open its first view is selected and the tabs stay as they are; only when no view shows `p` is it opened after the selected tab |
| EditorOps.SelectOrOpenSplit | src/editor.rs:311-323 | `select_or_open_split` keeps the invariant on success |
| EditorOps.SelectOrOpenSplitNoDuplicate | src/editor.rs:311-323 | the same for the next split |
| EditorOps.ForPathUnique | src/editor.rs:219-239 | opening a view of a file no view showed leaves it the only view of that file |
| EditorOps.RollForward | src/editor.rs:281-293 | `roll_forward_edit` keeps the invariant and the layout |
| EditorOps.RollForwardReplays | src/editor.rs:281-293 | the selected view's log is emptied; an empty log changes nothing else; otherwise every other view of the same file gets the edits applied to its text; with nothing selected nothing happens |
| EditorOps.EditAt | src/editor_file.rs:508-518 | a user edit followed by `text_changed` keeps the invariant and the layout |
| EditorOps.EditStaysSynced | src/editor.rs:281-293 | when every view of the selected file shows the same text and the selected view records its edits, an edit followed by the roll-forward leaves every view of that file showing the edited text |
| EditorOps.CloseSelected | src/editor.rs:360-375 | `close_selected_tab` keeps the invariant; it reports Continue when nothing is selected |
| EditorOps.CloseDown | src/editor.rs:380-382 | the loop of `close` calls from the last tab down keeps the invariant |
| EditorOps.CloseDownShape | src/editor.rs:380-382 | closing the tabs from the last one down succeeds exactly when every dirty view in the split can be written; then the split is gone with its tab strip and the selection shifted past it; otherwise a non-empty prefix of the split is left |
| EditorOps.CloseDownFails | src/editor.rs:380-382 | when the last tab cannot be saved, the loop returns the error at once and nothing changes |
| EditorOps.CloseDownLast | src/editor.rs:380-382 | closing the only tab of a split removes the split |
| EditorOps.CloseDownStep | src/editor.rs:380-382 | closing the last of several tabs keeps the others and the selection, and the loop goes on from there |
| EditorOps.CloseAll | src/editor.rs:378-392 | `close_all` keeps the invariant |
| EditorOps.CloseAllRemovesSplit | src/editor.rs:378-392 | with nothing selected it reports Continue and changes nothing; otherwise it succeeds exactly when the selected split can be saved, and then that split is gone and the split before it (else the first) is selected |
| EditorOps.SaveAs | src/editor.rs:395-408 | `save_as` keeps the invariant |
| EditorOps.SaveAsRenamesSelected | src/editor.rs:395-408 | only the selected view is renamed, to `p` with "md" added when `p` has no extension, and saved; the name sticks even when the write fails; with nothing selected nothing happens |
| EditorOps.Split | src/editor.rs:503-545 | `split` keeps the invariant |
| EditorOps.SplitSelectsSameFile | src/editor.rs:503-545 | when the next split already shows the selected file, its first such view is selected and no tab is added; otherwise the selected view, with its replay log on, is cloned to the end of the next split (or a new one) and the clone is selected; with nothing selected nothing happens |
| Editor.MDEditState.constructor | src/editor.rs:162-179 | a fresh editor holds the empty arena |
| Editor.MDEditState.New | src/editor.rs:162-179 | the arena after `new` is `EditorOps.New` of the old one |
| Editor.MDEditState.Open | src/editor.rs:182-194 | the arena after `open` is `EditorOps.Open` of the old one, or unchanged on an error |
| Editor.MDEditState.OpenSplit | src/editor.rs:197-217 | the same for `_open_split` |
| Editor.MDEditState.OpenAt | src/editor.rs:219-239 | the same for `_open` |
| Editor.MDEditState.RollForwardEdit | src/editor.rs:281-293 | the arena after `roll_forward_edit` is `EditorOps.RollForward` of the old one |
| Editor.MDEditState.SelectOrOpen | src/editor.rs:296-308 | the same for `select_or_open` |
| Editor.MDEditState.SelectOrOpenSplit | src/editor.rs:311-323 | the same for `select_or_open_split` |
| Editor.MDEditState.CloseSelectedTab | src/editor.rs:360-375 | the result, arena and disk are `EditorOps.CloseSelected` of the old ones |
| Editor.MDEditState.CloseAll | src/editor.rs:378-392 | the descending loop of `close` calls gives exactly `EditorOps.CloseAll` |
| Editor.MDEditState.SaveAs | src/editor.rs:395-408 | exactly `EditorOps.SaveAs` |
| Editor.MDEditState.Split | src/editor.rs:503-545 | exactly `EditorOps.Split` |
| EditOps.New | src/edit.rs:251-263 | `new` keeps the invariant and does not touch the file list |
| EditOps.NewSelectsDirtyView | src/edit.rs:251-263 | the fresh view goes right after the selected tab, or to (0, 0), and is selected; it starts dirty at the path with "md" defaulted |
| EditOps.Reuse | src/edit.rs:295-319 | the view `_open` places has path `p`; it fails exactly when no view shows `p` and the file cannot be read |
| EditOps.OpenAt | src/edit.rs:295-319 | `_open` keeps the invariant |
| EditOps.OpenAtPlaces | src/edit.rs:295-319 | a read error changes nothing; otherwise a view of `p` is selected at `pos`, a clone when one was open, and the file list follows the file (with the intended root and clamp of the Findings) |
| EditOps.FollowSelectsFile | src/edit.rs:313-317 | after the file list follows a file, it shows the file's directory and has the file selected when listed there, else nothing selected (with the intended root and clamp of the Findings) |
| EditOps.Open | src/edit.rs:285-293 | `open` keeps the invariant |
| EditOps.OpenSplit | src/edit.rs:266-282 | `open_split` keeps the invariant |
| EditOps.SelectOrOpen | src/edit.rs:322-329 | `select_or_open` keeps the invariant |
| EditOps.SelectOrOpenSplit | src/edit.rs:332-343 | `select_or_open_split` keeps the invariant |
| EditOps.SelectOrOpenNoDuplicate | src/edit.rs:321-329 | a file already open is only selected: no tab and no file-list change, and its view becomes the selected one; otherwise a read error changes nothing and a successful read selects a new view of the file right after the selected tab (at (0, 0) when nothing is selected) |
| EditOps.SelectOrOpenSplitNoDuplicate | src/edit.rs:331-343 | the same for `select_or_open_split`, where a file not yet open lands in the split after the selected one, after its active tab, or in a new split when the selected split is the last |
| EditOps.ClonePos | src/edit.rs:412-416 | the clone goes to the next split, and always to a position `open` accepts |
| EditOps.Split | src/edit.rs:402-421 | `split` keeps the invariant |
| EditOps.SplitKeepsSelection | src/edit.rs:402-421 | the original position stays selected, its view with the replay log on; the clone with the same file and text is the new last tab of the next split, or the only tab of a new split |
| EditOps.SyncFilesCases | src/edit.rs:444-459 | a path without parent gives Unchanged; the shown directory and file give Unchanged; another file in the shown directory is selected and gives Changed; another directory is loaded and the file selected; Changed means the list now shows the file's directory (with the intended root and clamp of the Findings) |
| Edit.MDEditState.constructor | src/edit.rs:251-263 | a fresh editor holds the empty arena and the default file list |
| Edit.MDEditState.New | src/edit.rs:251-263 | the state after `new` is `EditOps.New` of the old one |
| Edit.MDEditState.Open | src/edit.rs:285-293 | the result and state are `EditOps.Open` of the old state, whose file list follows the intended root and clamp of the Findings |
| Edit.MDEditState.OpenSplit | src/edit.rs:266-282 | the same for `open_split`, with the same intended file list |
| Edit.MDEditState.OpenAt | src/edit.rs:295-319 | the same for `_open`, with the same intended file list |
| Edit.MDEditState.Place | src/edit.rs:301-311 | the first half of `_open`: a read error changes nothing and is returned; otherwise the split/tab state is the reused or read view opened at `pos` and selected |
| Edit.MDEditState.SelectOrOpen | src/edit.rs:322-329 | the same for `select_or_open`, with the same intended file list |
| Edit.MDEditState.SelectOrOpenSplit | src/edit.rs:332-343 | the same for `select_or_open_split`, with the same intended file list |
| Edit.MDEditState.Split | src/edit.rs:402-421 | the arena after `split` is `EditOps.Split` of the old one; the file list is untouched |
| Edit.MDEditState.SyncEdit | src/edit.rs:226-238 | the `SyncEdit` arm drains the selected view's log and replays it, as `EditorOps.RollForward`; the file list is untouched |
| Edit.MDEditState.Close | src/edit.rs:199-206 | the `Close` arm closes the selected tab, as `EditorOps.CloseSelected`, and reports Continue with nothing selected |
| Edit.MDEditState.SyncFiles | src/edit.rs:444-459 | the file list after `sync_files` is `EditOps.SyncFiles` of the old one; the arena is untouched; the file list follows the intended root and clamp of the Findings |
| Document.ApplyEditsAppend | src/split_tab.rs:407-426 | replaying two logs one after another is replaying their concatenation |
| Document.Typed | src/editor.rs:281-293 | a user edit changes the text, adds one undo entry, and is recorded exactly when the replay log is on |
| Document.TakeLog | src/editor.rs:283-285 | `recent_replay_log` hands out the recorded edits and empties the log, keeping the text |
| Document.ReplayLog | src/split_tab.rs:417 | `replay_log` applies the edits to the text without recording them |
| Document.EnableReplay | src/editor.rs:226-228 | `enable_replay_log(true)` switches recording on and keeps text and log |
| Document.WriteFile | src/editor_file.rs:476-482 | writing succeeds exactly when the path has no fault, and then stores the content under the path; a failed `File::create` leaves the disk alone, a failed `write_all` leaves the file truncated to nothing; the faults never change |
| Document.ReadFile | src/editor_file.rs:426-454 | reading succeeds exactly when the file exists, and gives its content |
| Document.BuildSaveBuffer | src/editor_file.rs:477-482 | the line loop produces each line of the text followed by the view's terminator |
| Document.LinesShape | src/editor_file.rs:477-482 | no line holds a '\n', and none holds a '\r' when the text has none |
| Document.LinesOfTerminated | src/editor_file.rs:477-482 | splitting into lines what was written with "\n" or "\r\n" after each line gives the lines back |
| Document.SavedLines | src/editor_file.rs:477-482 | the bytes `save` writes hold the buffer's lines: always with "\r\n", and with "\n" when the text has no '\r' |
| Document.SaveBytesIdempotent | src/editor_file.rs:477-482 | saving what a save wrote writes the same bytes again |
| Document.SaveBytesExact | src/editor_file.rs:477-482 | a text without '\r' whose last line is terminated is written byte for byte with "\n" |
| Document.SaveView | src/editor_file.rs:474-487 | a failed write returns the error with the view unchanged and still dirty, and the disk as the failed write left it; a successful save leaves the view clean |
| Document.SaveFails | src/editor_file.rs:474-487 | after a failed save the view is dirty and unchanged; a failed create wrote nothing, a failed write left the file empty, and no other file changed |
| Document.Save | src/editor_file.rs:474-487 | the method with its line loop gives exactly `SaveView` |
| Document.SaveContract | src/editor_file.rs:474-487 | a clean view is an Ok no-op; after a successful save the view is clean and a second save is an Ok no-op; a dirty view's file then holds its bytes and nothing else on the disk changes |
| Document.SaveReadBack | src/editor_file.rs:477-484 | what a successful save of a dirty view wrote reads back as the view's own lines |
| Document.SaveViewAs | src/editor_file.rs:468-471 | `save_as` renames the view even when the write fails |
| Document.SaveAs | src/editor_file.rs:468-471 | the method gives exactly `SaveViewAs` |
| EditorFile.DocTypeOf | src/editor_file.rs:456-465 | the document type is markdown exactly when the extension is "md" |
| EditorFile.NewFile | src/editor_file.rs:396-423 | a new view gets the path with "md" added when it has no extension, is clean, holds no parse timer and has an empty buffer with the terminator |
| EditorFile.NewFileIsMarkdown | src/editor_file.rs:396-423 | a file name without extension becomes a markdown document with extension "md" |
| EditorFile.OpenFile | src/editor_file.rs:426-454 | opening succeeds exactly when the file can be read; the view then holds the file's text, is clean and has a parse timer |
| EditorFile.TextChanged | src/editor_file.rs:508-518 | the view is dirty exactly while the undo buffer holds open entries; SyncEdit is queued and Changed returned; nothing else changes but the timer |
| EditorFile.DirtyLifeCycle | src/editor_file.rs:474-518 | after a user edit and `text_changed` the view is dirty, and saving it writes its bytes and leaves it clean |
| EditorFile.NewFileSavesNothing | src/editor_file.rs:396-423 | a new view is not written until it is edited |
| EditorFile.Clone | src/editor_file.rs:61-81 | a clone has the same path, dirty flag, document type and buffer, a new identity, and no parse timer |
| EditorFile.CloneSavesSame | src/editor_file.rs:61-81 | a clone's save has the same outcome and writes the same disk as its original's |
| MdFile.NewFile | src/md_file.rs:242-266 | a new view gets the path with "md" defaulted and starts dirty, with an empty buffer |
| MdFile.NewFileFirstSave | src/md_file.rs:242-316 | a new view is written on its first save, as an empty file at its defaulted path, unless its path has a fault |
| MdFile.OpenFile | src/md_file.rs:269-294 | opening succeeds exactly when the file can be read; the view then holds its text and is clean |
| MdFile.TextChanged | src/md_file.rs:333-343 | the view becomes dirty whatever the undo state; SyncEdit is queued and Changed returned |
| MdFile.TextChangedAlwaysDirty | src/md_file.rs:333-343 | any reported change leaves the view dirty, even one fully undone, so the next save writes |
| MdFile.Clone | src/md_file.rs:43-51 | a clone has the same path, dirty flag and buffer, line numbers reset and no parse timer |
| Paths.DefaultMdExtension | src/editor_file.rs:398-401 | a path with a file name and no extension gets exactly the extension "md" in the same directory; a path that has one is kept |
| Paths.DefaultMdIdempotent | src/editor.rs:400-403 | adding the default extension twice is the same as once |
| Paths.SetExtension | src/editor_file.rs:398-401 | `set_extension` replaces the extension of the file name and keeps the directory |
| Paths.PathLessIsStrictTotal | src/fsys/mod.rs:201-202 | the order `sort` uses on paths (component by component) is a strict total order |
| Paths.SortDedupPaths | src/fsys/mod.rs:201-202 | `sort` then `dedup` gives a strictly sorted list with the same elements |
| Paths.SortDedupStrings | src/config.rs:72-79 | the same for globs |
| Sorting.SortedUnique | src/config.rs:72-79 | two strictly sorted lists with the same elements are equal, so sort-and-dedup has one result |
| Paths.SortPaths | src/fs_structure.rs:145 | sorting the subdirectories gives a sorted permutation of them |
| Strings.TrimCutsWhitespace | src/cfg/mod.rs:126 | `trim` gives the middle of the string: only whitespace is cut off before and after it, and it neither starts nor ends with whitespace |
| Strings.ParseUint | src/cfg/mod.rs:83-87 | `parse` of an unsigned type accepts an optional '+' and digits whose value fits the type, and nothing else |
| Strings.ParsePrint | src/cfg/mod.rs:395-402 | a printed number parses back whenever it fits the type |
| Strings.SplitJoin | src/cfg/mod.rs:194-202 | splitting a join on one separator gives the pieces back when none holds the separator |
| Strings.JoinSplit | src/cfg/mod.rs:194-202 | joining the pieces of a split undoes it |
| Strings.SplitJoinCommaSpace | src/config.rs:114-126 | joining with ", " and splitting on ' ' and ',' gives back the pieces once the empty ones are dropped |
| Ini.Get | src/cfg/mod.rs:81 | `get` is None exactly when no pair has the key, and otherwise the value of a pair with it |
| Ini.GetSet | src/cfg/mod.rs:348-370 | after `set`, `get` finds the new value, and every other key reads as before |
| Ini.SetAllFresh | src/cfg/mod.rs:339-402 | setting new, distinct keys lays the pairs out in the order they were set |
| Cfg.PathRoundTrip | src/cfg/mod.rs:148 | a path whose components are non-empty and hold no '/' is read back from the text `store` writes |
| Cfg.SplitTab | src/cfg/mod.rs:285-305 | `split_tab` gives two numbers that fit `usize`, or None |
| Cfg.TabKeyRoundTrip | src/cfg/mod.rs:285-305 | `split_tab` of any key `file.{s}.{t}`, `cursor.{s}.{t}` or `offset.{s}.{t}` gives back (s, t) |
| Cfg.TabKeyInjective | src/cfg/mod.rs:380-393 | two tabs get the same key exactly when they are the same tab |
| Cfg.SplitCursor | src/cfg/mod.rs:264-283 | `split_cursor` gives two text positions, or None |
| Cfg.CursorRoundTrip | src/cfg/mod.rs:264-283 | `split_cursor` reads back every "x,y" that `store` writes |
| Cfg.SplitOffset | src/cfg/mod.rs:235-262 | `split_offset` gives three text positions, or None |
| Cfg.OffsetRoundTrip | src/cfg/mod.rs:235-262 | `split_offset` reads back every "x,y,z" that `store` writes |
| Cfg.ParseSelected | src/cfg/mod.rs:173-192 | the `selected` value gives two numbers that fit `usize`, or None |
| Cfg.SelectedRoundTrip | src/cfg/mod.rs:173-192 | the `selected` value reads back every "s.t" that `store` writes |
| Cfg.Widths | src/cfg/mod.rs:194-202 | the widths read are `u16` values, at most one per piece |
| Cfg.WidthsRoundTrip | src/cfg/mod.rs:194-202 | every list of `u16` widths that `store` joins with ',' is read back exactly |
| Cfg.ScanEntry | src/cfg/mod.rs:143-170 | a `file.` entry stops the loop on a malformed key or a missing file, else pushes exactly one file; a `cursor.` or `offset.` entry stops on a malformed key or value, else pushes exactly one cursor or offset; every other key is skipped; `selected` and the widths are never touched |
| Cfg.ScanAppend | src/cfg/mod.rs:143-171 | the loop over two parts reads the second only when the first did not stop |
| Cfg.MalformedStops | src/cfg/mod.rs:141-204 | the first malformed entry ends the section: what was collected before it is kept, nothing after it is read, and `selected` and the widths keep their defaults |
| Cfg.ScanKeeps | src/cfg/mod.rs:143-171 | the entry loop never sets `selected` or the widths |
| Cfg.ReadEditor | src/cfg/mod.rs:136-204 | without an `[editor]` section the session is empty, with `selected` (0, 0) |
| Cfg.LoadSection | src/cfg/mod.rs:141-204 | the labelled block with its early exits gives exactly `ReadSection` |
| Cfg.LoadEntries | src/cfg/mod.rs:143-171 | the entry loop gives exactly `Scan`, including whether it stopped |
| Cfg.LoadWidths | src/cfg/mod.rs:194-202 | the widths loop reads exactly `Widths` of the pieces: every width up to the first piece that is not a `u16` |
| Cfg.EditorKeys | src/cfg/mod.rs:375-402 | the `[editor]` keys of a restorable session are distinct, so `store` lays them out in order |
| Cfg.EditorRoundTrip | src/cfg/mod.rs:141-202 | every restorable session `store` writes to `[editor]` is read back by `load`: files, cursors and offsets in order, the selection and the widths |
| Cfg.FromIni | src/cfg/mod.rs:79-224 | the settings read have widths that fit `u16`, clean globs and no files to open; `file_split_at` and the globs are read as the Findings intend |
| Cfg.Load | src/cfg/mod.rs:74-233 | no file gives the defaults; a file that cannot be read or parsed is the error; otherwise the settings read from it, with `file_split_at` and the globs read as the Findings intend |
| Cfg.Store | src/cfg/mod.rs:339-410 | without a configuration directory the result is an error; otherwise the document `store` writes |
| Cfg.Stored | src/cfg/mod.rs:339-406 | the document holds exactly the sections `ui` and `editor` besides the general one |
| Cfg.GeneralFound | src/cfg/mod.rs:348-370 | the general section holds each setting under its key |
| Cfg.MissingKeys | src/cfg/mod.rs:81-126 | a file with no keys and no sections loads the defaults, except the log level, which falls back to "warn" |
| Cfg.StoreLoad | src/cfg/mod.rs:74-410 | storing and then loading gives back every stored setting; no files to open come back, and an empty glob list comes back as "*.md"; this holds for the intended reading of `file_split_at` and the globs (Findings), not as written |
| Cfg.FileSplitAt | src/cfg/mod.rs:128-134 | the intended `file_split_at` fits `u16` and falls back to 15 without a `[ui]` section |
| Cfg.UiRoundTrip | src/cfg/mod.rs:372-373 | the intended reading gets back the `file_split_at` that `store` writes |
| Cfg.FileSplitAtAsWritten | src/cfg/mod.rs:128-134 | as written, `file_split_at` is always 15 |
| Cfg.AsWrittenSplitAtLost | src/cfg/mod.rs:128-134 | as written, any stored `file_split_at` other than 15 is lost on the next start |
| CfgState.ToUPos | src/cfg/mod.rs:331-332 | `as upos_type` keeps the low 32 bits, and a value that fits is kept |
| CfgState.ViewsFromComplete | src/cfg/mod.rs:319-335 | the nested loop visits exactly the views of the splits from `s` on |
| CfgState.ViewsFromOrdered | src/cfg/mod.rs:319-335 | the visit is in strictly increasing split-then-tab order |
| CfgState.StoredFileState | src/cfg/mod.rs:307-337 | `store_file_state` as intended changes only the session part of the settings |
| CfgState.SessionFilesOpen | src/cfg/mod.rs:318-326 | every recorded file entry is an open view with that view's path, and the recorded selection is an open position |
| CfgState.SessionFilesAll | src/cfg/mod.rs:318-326 | every open view has a file entry |
| CfgState.SessionFilesOrdered | src/cfg/mod.rs:318-326 | the file entries are in strictly increasing split-then-tab order, so no position is recorded twice |
| CfgState.SessionCarets | src/cfg/mod.rs:321-334 | the cursor and offset lists run in lockstep with the file entries, each holding what the view's text widget reports |
| CfgState.StoredFileStateAsWritten | src/cfg/mod.rs:307-337 | as written, only the session part changes |
| CfgState.AsWrittenKeepsStale | src/cfg/mod.rs:318-334 | as written, cursors and offsets recorded earlier stay in their lists, which then no longer match the file entries |
| CfgState.SessionRestorable | src/cfg/mod.rs:307-337 | a recorded session meets everything `load` needs to read it back |
| CfgState.SessionRoundTrip | src/cfg/mod.rs:307-402 | the session `store_file_state` records is read back by `load` from the `[editor]` section `store` writes |
| CfgState.ShutdownRestore | src/main.rs:495-496 | what the end of a session writes (`store_file_state`, then `store`) is what the next start loads: the settings and the recorded session, with no files to open and an empty glob list as "*.md"; this holds for the intended `file_split_at`, glob reading and clearing of the caret lists (Findings), not as written |
| CfgState.RecordRow | src/cfg/mod.rs:320-334 | the inner loop records the entries of the tabs of one split |
| CfgState.RecordViews | src/cfg/mod.rs:319-335 | the nested loop records one file, cursor and offset entry per view, exactly those of `Files`, `Cursors` and `Offsets` |
| CfgState.RecordSession | src/cfg/mod.rs:307-337 | the body of `store_file_state` records exactly `SessionOf` |
| CfgState.SetFiles | src/cfg/mod.rs:380-385 | the `file.s.t` loop of `store` sets exactly the file entries |
| CfgState.SetCursors | src/cfg/mod.rs:386-388 | the `cursor.s.t` loop sets exactly the cursor entries |
| CfgState.SetOffsets | src/cfg/mod.rs:389-394 | the `offset.s.t` loop sets exactly the offset entries |
| CfgState.WidthsString | src/cfg/mod.rs:395-402 | the widths loop builds the widths joined with ',' |
| CfgState.MDConfig.constructor | src/cfg/mod.rs:46-70 | a fresh configuration holds the defaults, `show_linenr` on |
| CfgState.MDConfig.Load | src/cfg/mod.rs:74-233 | the method fails exactly when `Cfg.Load` does, with its error, and otherwise yields a fresh object holding `Cfg.Load`'s settings (the intended reading of the Findings) |
| CfgState.MDConfig.StoreFileState | src/cfg/mod.rs:307-337 | the object afterwards holds `StoredFileState` of its old settings: the session of the open views, with all three tab lists rebuilt as the Findings intend |
| CfgState.MDConfig.Store | src/cfg/mod.rs:339-410 | the document the method builds key by key is exactly `Cfg.Store` of the settings |
| Config.Number | src/config.rs:66-70 | a missing key gives the default; a present one gives its parsed value if it fits, else the default |
| Config.NumberRoundTrip | src/config.rs:60-70 | a number that fits the type is read back from its decimal text |
| Config.Flag | src/cfg/mod.rs:105-124 | a missing key gives the default; "true" and "false" give their value; anything else the default |
| Config.GlobsAsWritten | src/config.rs:72-79 | as written, the globs read are strictly sorted and exactly the pieces between ' ' and ',', empty ones included |
| Config.Globs | src/config.rs:72-79 | the intended globs are strictly sorted and exactly the non-empty pieces |
| Config.GlobsRoundTrip | src/config.rs:114-126 | clean globs written as `file_pattern` are read back, and none come back as "*.md" |
| Config.GlobsClean | src/config.rs:72-79 | every glob list read is sorted, without duplicates, without an empty glob and without a separator inside a glob; as written the empty pieces stay (Findings) |
| Config.AsWrittenGlobsGainEmpty | src/config.rs:72-126 | as written, two or more globs come back with an extra empty glob |
| Config.FromIni | src/config.rs:58-81 | the settings read have widths that fit `u16` and clean globs, read as the Findings intend |
| Config.Load | src/config.rs:51-99 | no file gives the defaults; a file that cannot be read or parsed is that error; otherwise the configuration `Config.FromIni` reads from it, with the globs read as the Findings intend |
| Config.Stored | src/config.rs:108-128 | `store` writes only the general section |
| Config.Store | src/config.rs:101-135 | without a configuration directory the result is an error; otherwise the document `store` writes |
| Config.MissingKeys | src/config.rs:51-99 | a file without keys loads the defaults, except the log level, which falls back to "warn" |
| Config.StoreLoad | src/config.rs:51-135 | storing and loading gives back the stored configuration; `show_ctrl` and the files to open come back as defaults, no globs as "*.md"; this holds for the intended glob reading (Findings), not as written |
| FileList.CurrentDir | src/file_list.rs:291-293 | the list's directory is the structure's `files_dir` |
| FileList.CurrentFile | src/file_list.rs:296-306 | a file is current exactly when the selection lies inside the list, and it is the selected row's |
| FileList.ClampAsWritten | src/file_list.rs:315-325 | as written, the selection is cleared exactly when the list is empty, and a row up to and including the length is kept |
| FileList.Clamp | src/file_list.rs:315-325 | the intended selection always lies inside the list |
| FileList.ClampSelects | src/file_list.rs:315-325 | something is selected exactly when the list is not empty; a row inside it stays, no selection becomes row 0, a row at or past the end moves to the last row; clamping twice is clamping once |
| FileList.ClampAgrees | src/file_list.rs:337-347 | the written and the intended clamp differ exactly on a row one past the end of a non-empty list |
| FileList.AsWrittenKeepsRowPastEnd | src/file_list.rs:315-325 | as written, with one file and row 1 selected the row stays and no file is current; the intended clamp makes the file current |
| FileList.FirstIndex | src/file_list.rs:355-360 | the first row showing the file, None exactly when it is not listed |
| FileList.SelectFile | src/file_list.rs:353-362 | `select` changes only the selection |
| FileList.SelectThenCurrent | src/file_list.rs:353-362 | selecting a listed file makes it current; selecting any other leaves nothing selected |
| FileList.Current | src/file_list.rs:309-328 | `load_current` reloads the structure as `FsStructure.Current`, and the old row moves below the length, as the Findings intend |
| FileList.Loaded | src/file_list.rs:331-350 | `load` reloads as `FsStructure.Loaded`; on its error the selection is untouched; on success the old row moves below the length, as the Findings intend |
| FileList.LoadCurrentSelection | src/file_list.rs:309-328 | afterwards the list shows `dir`; a file is current exactly when `dir` has markdown files (with the intended clamp of the Findings) |
| FileList.LoadSelection | src/file_list.rs:331-350 | the same after a successful `load` (with the intended root and clamp of the Findings) |
| FileList.FileListState.FollowReload | src/file_list.rs:315-325 | the selection after a reload is the intended clamp of the old one |
| FileList.FileListState.LoadCurrent | src/file_list.rs:309-328 | exactly `FileList.Current`, the intended one |
| FileList.FileListState.Load | src/file_list.rs:331-350 | exactly `FileList.Loaded`, the intended one |
| FileList.FileListState.Select | src/file_list.rs:353-362 | the loop gives exactly `SelectFile` |
| Host.ManifestName | src/fsys/mod.rs:209-255 | a manifest that does not exist gives no name; an error only comes from a manifest that exists |
| Roots.RootFromNearest | src/fsys/mod.rs:97-116 | the root found is the nearest of `p` and its ancestors holding Cargo.toml or book.toml; None exactly when none holds one |
| Roots.FindRoot | src/fsys/mod.rs:97-116 | the loop returns exactly `RootFrom` |
| Fsys.NewRoot | src/fsys/mod.rs:130-134 | without a marker the path itself is the root |
| Fsys.Found | src/fsys/mod.rs:187-198 | every matched file is kept, a relative one not starting with "." prefixed with it |
| Fsys.MatchesComplete | src/fsys/mod.rs:181-199 | the loop fails exactly when a pattern is malformed; otherwise it finds exactly the matched files |
| Fsys.MatchesStops | src/fsys/mod.rs:185 | a malformed pattern ends the loop with its error, whatever follows |
| Fsys.Current | src/fsys/mod.rs:175-205 | `load_current` changes only `files_dir` and the files |
| Fsys.CurrentListsMatches | src/fsys/mod.rs:175-205 | afterwards `files_dir` is the path; the files are strictly sorted and exactly the matched ones, the relative ones starting with "." |
| Fsys.Position | src/fsys/mod.rs:289 | the first item with the name, or None when no item has it |
| Fsys.AddUnder | src/fsys/mod.rs:284-301 | the descent keeps every existing item and adds at most one at each level |
| Fsys.AddUnderShape | src/fsys/mod.rs:284-301 | every name stays unique in its branch, the branch named by the components exists afterwards, and a component is added only when it was not there |
| Fsys.GrowUnique | src/fsys/mod.rs:276-302 | every tree the walk builds has unique names in each branch |
| Fsys.StripPrefix | src/fsys/mod.rs:278 | the rest below the base is relative, and the base followed by it is the path |
| Fsys.Filesys | src/fsys/mod.rs:129-172 | `load_filesys` always ends at the found root; when that is the current root nothing changes |
| Fsys.Rescan | src/fsys/mod.rs:142-169 | a change of root keeps the file listing |
| Fsys.Naming | src/fsys/mod.rs:147-163 | naming the root changes only the name and the cargo and mdbook flags |
| Fsys.RescanNames | src/fsys/mod.rs:142-169 | the name is the cargo package name, else the mdbook title, else the root's last component, else "."; `is_cargo` and `is_mdbook` are never both set; `dirs` and `display` have equal length and start with the root and its name, then the tree's preorder lines |
| Fsys.WalkShape | src/fsys/mod.rs:165-169 | from an empty display the walk starts with the root under its name |
| Fsys.LoadedStops | src/fsys/mod.rs:120-138 | loading the same path again changes nothing, and `load` stops at a malformed pattern |
| Fsys.StepKeeps | src/fsys/mod.rs:319-359 | one turn of the stack loop keeps what was shown followed by what is pending, and shortens what is pending |
| Fsys.FileSysStructure.constructor | src/fsys/mod.rs:120-125 | a fresh structure is the default one |
| Fsys.FileSysStructure.Load | src/fsys/mod.rs:120-125 | exactly `Loaded`: `load_current`, then `load_filesys`, stopping at the first error |
| Fsys.FileSysStructure.LoadFilesys | src/fsys/mod.rs:129-172 | exactly `Filesys` |
| Fsys.FileSysStructure.NameRoot | src/fsys/mod.rs:147-163 | a manifest error is returned and changes nothing; otherwise the state is exactly `Naming` of the old one |
| Fsys.FileSysStructure.WalkRoot | src/fsys/mod.rs:165-169 | the root's entry and then the walk below it give exactly `Walk` of the old state |
| Fsys.FileSysStructure.LoadCurrent | src/fsys/mod.rs:175-205 | the pattern loop with its sort and dedup gives exactly `Current` |
| Fsys.FsRecurse | src/fsys/mod.rs:258-362 | the tree is built from the walk and its preorder lines are appended to the two vectors; a walk error comes back as it is |
| Fsys.BuildTree | src/fsys/mod.rs:276-302 | the walk loop builds exactly `Built` |
| Fsys.Flatten | src/fsys/mod.rs:319-359 | the stack loop appends the preorder walk: each line is the prefix, '└' for the last sibling or '├' otherwise, and the name; children extend the prefix with ' ' or '│' |
| FsStructure.Subdirs | src/fs_structure.rs:131-143 | the scan fails exactly when an entry fails; otherwise it keeps only directories, each a child of the listed one |
| FsStructure.ScanDirs | src/fs_structure.rs:131-143 | the scan loop gives exactly `Subdirs` |
| FsStructure.Tree | src/fs_structure.rs:124-174 | `dirs` and `display` grow in lockstep |
| FsStructure.TreeShape | src/fs_structure.rs:124-174 | every line starts with the prefix given, and every directory listed lies below the walked one |
| FsStructure.Children | src/fs_structure.rs:148-171 | the loop over the sorted subdirectories grows `dirs` and `display` in lockstep |
| FsStructure.FsRecurse | src/fs_structure.rs:124-174 | the recursive method pushes exactly `Tree` onto the vectors it is lent |
| FsStructure.PushChildren | src/fs_structure.rs:148-171 | the loop pushes exactly `Children` |
| FsStructure.PushChild | src/fs_structure.rs:149-170 | one turn pushes the entry's line ('└' for the last, '├' otherwise) and then the walk below the entry with the prefix extended by ' ' or '│' |
| FsStructure.MdFiles | src/fs_structure.rs:59-71 | the listing keeps exactly the entries whose extension is "md" |
| FsStructure.Current | src/fs_structure.rs:55-74 | `load_current` changes only `files_dir` and the files, and an unreadable directory gives no files and no error |
| FsStructure.FileSysStructure.LoadCurrent | src/fs_structure.rs:55-74 | the loop gives exactly `Current` |
| FsStructure.Rescan | src/fs_structure.rs:35-52 | after a change of root `dirs` and `display` are in lockstep and are the walk below the root |
| FsStructure.Walk | src/fs_structure.rs:50 | `fs_recurse` appends the walk below the root |
| FsStructure.FilesysAsWritten | src/fs_structure.rs:24-53 | as written, an equal root changes nothing, and any other stores `path`, not the root found |
| FsStructure.AsWrittenKeepsSubdirectory | src/fs_structure.rs:24-53 | as written, loading a subdirectory of a project keeps the subdirectory as the root and names it after itself |
| FsStructure.Filesys | src/fs_structure.rs:24-53 | the intended `load_filesys` ends at the found root and keeps `dirs` and `display` in lockstep; an equal root changes nothing |
| FsStructure.FilesysIdempotent | src/fs_structure.rs:24-53 | loading the same directory again changes nothing |
| FsStructure.FilesysShowsRoot | src/fs_structure.rs:40-50 | after a successful change of root the tree is the walk of the found root, and a root with a cargo package name is named after it; as written the root stored is `path` instead (Findings) |
| FsStructure.FileSysStructure.constructor | src/fs_structure.rs:17-22 | a fresh structure is the default one |
| FsStructure.FilesysAgrees | src/fs_structure.rs:24-53 | the intended and the as-written `load_filesys` differ exactly when the stored root changes to a root found above `path` |
| FsStructure.Loaded | src/fs_structure.rs:18-22 | `load` lists the markdown files of `path` and ends at the root found for it, keeping `dirs` and `display` in lockstep; an unchanged root changes nothing but the files |
| FsStructure.FileSysStructure.Load | src/fs_structure.rs:18-22 | exactly `Loaded`, with the intended root of the Findings |
| FsStructure.FileSysStructure.LoadFilesys | src/fs_structure.rs:24-53 | exactly the intended `Filesys` |
| FsStructure.FindRoot | src/fs_structure.rs:176-206 | a relative path first gets "." in front, then the shared loop finds the nearest marker |

## Left out

- Rendering, event forwarding, key handling and the focus subsystem are not modelled. The focused view is a parameter of `establish_active_split`.
- The editor's timers are left out. The parse-timer handle is the flag `timer`.
- The file system is an input value. `Disk` holds the files and, per path, how saving it fails. `Host` holds listings, walks, the glob results and the manifests' parsed names. `present` is the set of paths for which `exists()` is true.
- Reading and parsing Cargo.toml and book.toml (TOML) are not modelled; `Host` gives their outcome. Glob matching is not modelled either; `Host` gives its outcome.
- The text widget's cursor, offset and sub-row are the `caret` parameter of `store_file_state`. The split widths (`area_lengths`) are the `widths` parameter.
- `config_dir()` is the flag `hasConfigDir`. Creating the configuration directory and the write errors of `store` are not modelled.
- `font_size` is left out, because it is floating point. So is its key in `store`.
- The locale in both configurations is left out: it comes from the environment and is never stored.
- `warn!` and `debug!` logging are left out.
- `follow_link` in `editor_file.rs` is left out: it calls the markdown parser and creates files.
- The renaming of the focus flag in `clone` is left out: it is time-based. A clone gets the new id it is given.
- The dialogs and themes are left out. The glob dialog's dropping of empty globs only serves as the intended behaviour behind the glob finding.
- `main.rs` is left out beyond the shutdown and restart pair: the event loop, thread spawning, the command line, and replaying the restored session into the workspace. `CfgState.ShutdownRestore` covers the pair.
- The text buffer's own cursor and undo internals are left out. `Document` keeps what the editor relies on: the text, the count of open undo entries, and the replay log with its switch.
- Path normalisation is left out. A `Path` is an absolute flag plus its components, and `PathFrom` is how `PathBuf::from` reads one back.
- Document.WriteFile: a `write_all` that fails after part of the buffer reached the file is modelled as leaving it empty. `BufWriter`'s buffering, which can move a failure to the ignored flush on drop, is not modelled.
- FsStructure.Loaded: ends at the root found, as the corrected `load_filesys` stores it. As written, line 36 of `src/fs_structure.rs` stores `path`, so loading a subdirectory of a project keeps the subdirectory as root (`FsStructure.AsWrittenKeepsSubdirectory`); `FsStructure.FilesysAgrees` says exactly when the two differ.
- FsStructure.FileSysStructure.Load: equals `FsStructure.Loaded`, so it ends at the root found. As written, line 36 of `src/fs_structure.rs` stores `path`, so loading a subdirectory of a project keeps the subdirectory as root (`FsStructure.AsWrittenKeepsSubdirectory`); `FsStructure.FilesysAgrees` says exactly when the two differ.
- FsStructure.FileSysStructure.LoadFilesys: assigns the root found, not `path`. As written, line 36 of `src/fs_structure.rs` stores `path`, so loading a subdirectory of a project keeps the subdirectory as root (`FsStructure.AsWrittenKeepsSubdirectory`); `FsStructure.FilesysAgrees` says exactly when the two differ.
- FsStructure.FilesysShowsRoot: is about the corrected `load_filesys`, whose tree is the walk of the root found. As written, line 36 of `src/fs_structure.rs` stores `path`, so loading a subdirectory of a project keeps the subdirectory as root (`FsStructure.AsWrittenKeepsSubdirectory`); `FsStructure.FilesysAgrees` says exactly when the two differ.
- FileList.Current: clamps the old row with `sel >= len`. As written (`src/file_list.rs:317`, and 339 for `load`), a row equal to the new length stays selected and no file is current (`FileList.AsWrittenKeepsRowPastEnd`); `FileList.ClampAgrees` says this is the only input where the clamps differ.
- FileList.FileListState.LoadCurrent: equals `FileList.Current`, so it uses the corrected clamp. As written (`src/file_list.rs:317`, and 339 for `load`), a row equal to the new length stays selected and no file is current (`FileList.AsWrittenKeepsRowPastEnd`); `FileList.ClampAgrees` says this is the only input where the clamps differ.
- FileList.LoadCurrentSelection: holds for the corrected clamp. As written (`src/file_list.rs:317`, and 339 for `load`), a row equal to the new length stays selected and no file is current (`FileList.AsWrittenKeepsRowPastEnd`); `FileList.ClampAgrees` says this is the only input where the clamps differ.
- FileList.FileListState.FollowReload: tests `sel >= len`. As written (`src/file_list.rs:317`, and 339 for `load`), a row equal to the new length stays selected and no file is current (`FileList.AsWrittenKeepsRowPastEnd`); `FileList.ClampAgrees` says this is the only input where the clamps differ.
- FileList.Loaded: uses the corrected clamp and the corrected root of `FsStructure.Loaded`. As written (`src/file_list.rs:317`, and 339 for `load`), a row equal to the new length stays selected and no file is current (`FileList.AsWrittenKeepsRowPastEnd`); `FileList.ClampAgrees` says this is the only input where the clamps differ.
- FileList.FileListState.Load: equals `FileList.Loaded`, with the corrected clamp and root. As written (`src/file_list.rs:317`, and 339 for `load`), a row equal to the new length stays selected and no file is current (`FileList.AsWrittenKeepsRowPastEnd`); `FileList.ClampAgrees` says this is the only input where the clamps differ.
- FileList.LoadSelection: holds for the corrected clamp and root. As written (`src/file_list.rs:317`, and 339 for `load`), a row equal to the new length stays selected and no file is current (`FileList.AsWrittenKeepsRowPastEnd`); `FileList.ClampAgrees` says this is the only input where the clamps differ.
- EditOps.OpenAtPlaces: the file list follows through `FileList.Loaded`, so it carries the corrected root and clamp; as written, the list can stand at a subdirectory root and keep a row one past the end.
- EditOps.FollowSelectsFile: the same corrected reload as `EditOps.OpenAtPlaces`.
- EditOps.SyncFilesCases: another directory loads through `FileList.Loaded`, with the corrected root and clamp.
- Edit.MDEditState.Open: equals `EditOps.Open`, whose file list follows the corrected root and clamp.
- Edit.MDEditState.OpenSplit: equals `EditOps.OpenSplit`, whose file list follows the corrected root and clamp.
- Edit.MDEditState.OpenAt: equals `EditOps.OpenAt`, whose file list follows the corrected root and clamp.
- Edit.MDEditState.SelectOrOpen: equals `EditOps.SelectOrOpen`, whose file list follows the corrected root and clamp.
- Edit.MDEditState.SelectOrOpenSplit: equals `EditOps.SelectOrOpenSplit`, whose file list follows the corrected root and clamp.
- Edit.MDEditState.SyncFiles: equals `EditOps.SyncFiles`, whose file list follows the corrected root and clamp.
- Config.GlobsClean: holds of the intended glob reading, which drops empty pieces. As written (`src/config.rs:72-79`), a stored "*.md, *.txt" reads back with an extra "" (`Config.AsWrittenGlobsGainEmpty`).
- Config.FromIni: reads `file_pattern` the intended way and drops empty pieces. As written (`src/config.rs:72-79`), a stored "*.md, *.txt" reads back with an extra "" (`Config.AsWrittenGlobsGainEmpty`).
- Config.Load: yields `Config.FromIni`, so it drops empty glob pieces. As written (`src/config.rs:72-79`), a stored "*.md, *.txt" reads back with an extra "" (`Config.AsWrittenGlobsGainEmpty`).
- Config.StoreLoad: a round trip only for the intended glob reading. As written, any two or more globs come back with "" added.
- Cfg.FromIni: assigns the parsed `[ui] file_split_at` and drops empty glob pieces. As written (`src/cfg/mod.rs:96-103` and 128-134), `file_split_at` stays 15 (`Cfg.AsWrittenSplitAtLost`) and two or more globs gain "".
- Cfg.Load: yields `Cfg.FromIni`, with the same corrections. As written (`src/cfg/mod.rs:96-103` and 128-134), `file_split_at` stays 15 (`Cfg.AsWrittenSplitAtLost`) and two or more globs gain "".
- CfgState.MDConfig.Load: holds `Cfg.Load`'s settings, with the same corrections. As written (`src/cfg/mod.rs:96-103` and 128-134), `file_split_at` stays 15 (`Cfg.AsWrittenSplitAtLost`) and two or more globs gain "".
- Cfg.StoreLoad: a round trip only for the intended reading. As written, a stored `file_split_at` other than 15 and any two or more globs do not come back.
- CfgState.MDConfig.StoreFileState: it rebuilds all three session lists. As written (`src/cfg/mod.rs:318`), only `tab_state` is cleared, so `tab_cursor` and `tab_offset` keep the entries of earlier sessions (`CfgState.AsWrittenKeepsStale`).
- CfgState.ShutdownRestore: a round trip only for the intended `file_split_at`, glob reading and clearing of the caret lists. As written, each of the three findings above breaks it.
- The INI text layer is left out: `write_to_file` and `load_from_file`, with their escaping, quoting and whitespace, are not modelled. A configuration file is its parsed document, sections of ordered (key, value) pairs. So Cfg.StoreLoad, Config.StoreLoad and CfgState.ShutdownRestore are round trips on that document, not on the file's bytes.

## Findings

| source | as written | input that shows it | evidently intended | confidence | as-written member | corrected member |
|---|---|---|---|---|---|---|
| src/fs_structure.rs:24-53 | `load_filesys` compares the stored root with the root it found, then stores `path` (line 36) | loading `/proj/docs` inside a project whose `Cargo.toml` sits in `/proj`: the root becomes `/proj/docs`, named "docs", and the next load of the same path rebuilds again | store the found root, as `fsys/mod.rs:143` does | not executed | FsStructure.AsWrittenKeepsSubdirectory | FsStructure.FilesysIdempotent |
| src/file_list.rs:315-325 | after a reload a selected row is moved only when `sel > len`, so a row equal to the length is kept (also lines 337-347) | one file listed, row 1 selected: row 1 stays and `current_file` is None | `sel >= len` moves the row to the last file | not executed | FileList.AsWrittenKeepsRowPastEnd | FileList.ClampSelects |
| src/config.rs:72-126 | `store` joins the globs with ", " and `load` splits on ' ' and ',' keeping every piece (also cfg/mod.rs:96-103) | globs `["*.md", "*.txt"]` are written as "*.md, *.txt" and read back as `["", "*.md", "*.txt"]` | drop the empty pieces, as the glob dialog does | not executed | Config.AsWrittenGlobsGainEmpty | Config.GlobsRoundTrip |
| src/cfg/mod.rs:128-134 | the parsed `[ui] file_split_at` is computed and discarded, so the field stays 15 | a stored `file_split_at = 20` loads as 15 | assign the parsed value | not executed | Cfg.AsWrittenSplitAtLost | Cfg.UiRoundTrip |
| src/cfg/mod.rs:318-334 | `store_file_state` clears `tab_state` but not `tab_cursor` and `tab_offset`, so these lists keep the entries of earlier sessions | a configuration loaded with one cursor and one offset entry, then stored with one open view: the old entries stay, and the lists are longer than `tab_state` | clear all three lists | not executed | CfgState.AsWrittenKeepsStale | CfgState.SessionCarets |
