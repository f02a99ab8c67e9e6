# nedit-ng document topology, modelled in Dafny

This project models the structural core of `source/Document.cpp` from
nedit-ng, the C++ port of the NEdit text editor. It covers four
parts:

- **The document registry** (module `Registry`, class `WindowRegistry`).
  - `WindowList` is the global singly linked list of every open document, threaded through each document's `next` field. It is modelled as a head pointer plus a map from document to successor. A ghost sequence `Docs` is tied to the pointers by `Valid()`.
  - Each document records its shell window and its own copy of the three shell-level settings: incremental-search line, statistics line and line numbers.
  - The focus history is kept in the globals `inFocusDocument` and `lastFocusDocument`.
  - Each shell has a top document, which the source stores as its main window's user data.
  - Modelled operations: `addToWindowList`, `removeFromWindowList`, `IsValidWindow`, `NDocuments`, `MarkActiveDocument`, `MarkLastDocument`, `RaiseDocument`, `LastDocument`, `GetShowTabBar`, the three `Show…Line` synchronisations, and the registry parts of the `Document` constructor and `CreateDocument`.
- **Tab navigation** (module `TabNavigation`). The index arithmetic of `getNextTabWindow` is a pure function, proved against the wrap and clamp policy. The tab search is a method over the tab list.
- **Split-pane bookkeeping** (module `Panes`, class `PaneSet`).
  - A document's primary text area and up to `MAX_PANES` split panes.
  - The focus pane.
  - The four per-pane arrays of `MAX_PANES + 1` slots: cursor positions, heights, top lines and horizontal offsets.
  - `SplitPane` and `ClosePane` shift these arrays in place, proved against `SplitAt` and `RemoveAt` on sequences. `GetPaneByIndex` and `WidgetToPaneIndex` are proved inverse to each other, and `cloneTextPanes` is modelled too.
- **A document's edit and file state** (module `Documents`, class `Document`).
  - The journaling gate of `modifiedCB`, with its autosave counters, and the drag callbacks.
  - `SetWindowModified`.
  - The reset `CloseWindow` applies to a document it keeps.
  - The state copy of `cloneDocument`, using `cloneUndoItems` (module `UndoLists`).

Module `Lifecycle` combines these into `CloseWindow` (reset or unregister), `DetachDocument` and `MoveDocument`. Detach and move create a clone and relink the list so the clone sits directly after the original. After that, closing the original leaves the clone in its place (`Registry.RelinkThenClose`).

Pointers and toolkit handles are compared only for identity in this code, so documents, shells and text widgets are opaque ids (module `Ids`).

Some behaviour of the code is easy to misread; the model follows the code at these points:

- `SplitPane` refuses only when there are already `MAX_PANES` split panes besides the primary text area (`nPanes >= MAX_PANES`). A document can therefore show `MAX_PANES + 1` text widgets.
- After halving the focus pane's height, `SplitPane` sets every pane's desired height to an equal share of the old total (source/Document.cpp:2956-2962). Other panes do not keep their height.
- The statistics line is synchronised across a shell as well as the incremental-search line and line numbers. `ShowStatsLine` has no early return when the value is unchanged.
- The doc comment of `getNextTabWindow` (source/Document.cpp:968-972) assigns the "second from the end" behaviour to `wrap` being true. The code does it when `wrap` is false. The model follows the code.

## Model

| member | source | states |
|---|---|---|
| TabNavigation.NextTabPos | source/Document.cpp:1024-1036 | There is no next tab exactly when there are at most one document; otherwise the new index always lies in `[0, nBuf)`, whatever the start and direction |
| TabNavigation.WrapIsCyclic | source/Document.cpp:1024-1036 | With wrapping, a step of +1 or -1 from a valid position is a step round a cycle: `(pos + dir) mod nBuf` |
| TabNavigation.WrapStepsAreInverse | source/Document.cpp:1024-1036 | With wrapping, "previous" undoes "next" and "next" undoes "previous" |
| TabNavigation.StepNeverStays | source/Document.cpp:1024-1036 | A single step, with or without wrapping, never lands on the tab it started from, so the tab being closed or detached is always left |
| TabNavigation.ClampAtEnds | source/Document.cpp:1024-1036 | Without wrapping, stepping past the right end gives the second tab from the right and stepping before the left end gives the second from the left; with wrapping they go to the opposite end |
| TabNavigation.TabPosition | source/Document.cpp:1015-1022 | The position found is the tab's first occurrence in the tab list, or 0 when the tab is not in it |
| TabNavigation.GetNextTabWindow | source/Document.cpp:974-1041 | No document exactly when nBuf <= 1; otherwise one of the listed tabs, the one at the wrap-or-clamp successor of `self`'s position |
| UndoLists.UndoInfo.Copy | source/Document.cpp:525 | The copied record holds the same contents as the original |
| UndoLists.CloneUndoItems | source/Document.cpp:521-528 | The new list has the original's contents in the same order, each in a freshly allocated record that no other entry shares, so neither list can affect the other |
| Panes.SplitAt | source/Document.cpp:2938-2943 | Splitting pane `focus` keeps the entries up to it, puts a copy of it directly after it, and moves every later entry up one slot |
| Panes.SplitHeights | source/Document.cpp:2938-2945 | The focus pane and the new pane both get half the focus pane's old height, truncated as C divides; the others are kept or move up one slot |
| Panes.RemoveAt | source/Document.cpp:2654-2659 | Closing pane `focus` keeps the entries before it and gives every slot from it on its successor's entry, one entry fewer |
| Panes.CloseUndoesSplit | source/Document.cpp:2654-2659 | Closing the focus pane right after splitting it gives back the per-pane state from before the split |
| Panes.ShiftUp | source/Document.cpp:2938-2943 | The in-place shifting loop leaves the first `nPanes + 1` slots equal to `SplitAt` of the old panes, and the slots above untouched |
| Panes.ShiftDown | source/Document.cpp:2654-2659 | The in-place shifting loop leaves the first `nPanes + 1` slots equal to `RemoveAt` of the old panes, and the slots above untouched; its read at `i + 1` stays inside the `MAX_PANES + 1` slots |
| Panes.SplitShiftAll | source/Document.cpp:2938-2945 | Cursor, top-line and offset arrays become `SplitAt` of their old contents and the height array `SplitHeights` |
| Panes.CloseShiftAll | source/Document.cpp:2654-2659 | All four per-pane arrays become `RemoveAt` of their old contents at the focus pane |
| Panes.PaneSet.constructor | source/Document.cpp:3284-3284 | A new document has no split panes, focus on its text area, and fresh per-pane arrays |
| Panes.PaneSet.GetPaneByIndex | source/Document.cpp:906-913 | A widget exactly when `0 <= paneIndex <= nPanes`, and that widget's pane index is `paneIndex` |
| Panes.PaneSet.WidgetToPaneIndex | source/Document.cpp:1555-1567 | The pane index of `w` (so it undoes `GetPaneByIndex`), or 0 when `w` is none of the document's panes |
| Panes.PaneSet.TotalHeight | source/Document.cpp:2901-2909 | The recording loop's total is the sum of the pane heights |
| Panes.PaneSet.AppendPane | source/Document.cpp:2926-2926 | The new widget joins at the end of the panes, the panes stay distinct and focus stays on the same pane index |
| Panes.PaneSet.DropLastPane | source/Document.cpp:2644-2651 | The last pane is dropped and focus stays on its pane, or moves to the new last pane when it was on the dropped one |
| Panes.PaneSet.SplitPane | source/Document.cpp:2885-2969 | No change at the pane limit; otherwise one more pane, a new last widget, the same focus pane index, cursor, top-line and offset state split at the focus pane, and every pane's height set to an equal share of the old total |
| Panes.PaneSet.ClosePane | source/Document.cpp:2614-2681 | No change without split panes; otherwise one pane fewer, the last widget gone, focus at `min(old focus, nPanes)`, and all four arrays with the focus pane's entry removed |
| Panes.PaneSet.SetPaneWidgets | source/Document.cpp:564-629 | The panes become the text area followed by the new widgets, with focus on the requested pane index |
| Panes.PaneSet.CopyPaneArrays | source/Document.cpp:553-612 | Every pane's cursor, top line and horizontal offset equal the original document's; the heights are the original's when the document is split, and an unsplit copy keeps its own height |
| Panes.PaneSet.CloneTextPanes | source/Document.cpp:530-636 | The clone has as many panes as the original, its own new widgets, the same focus pane index, the same cursors and scroll positions, and the same heights only when it is split (an unsplit clone keeps its own height) |
| Panes.FillPrefix | source/Document.cpp:2956-2962 | The first n slots all hold the equal share; the rest are untouched |
| Panes.CopyPrefix | source/Document.cpp:607-612 | The first n slots equal the source array's; the rest are untouched |
| Documents.EditGate | source/Document.cpp:231-295 | Ignored or empty changes change nothing and record nothing; every other change is journaled and marks the file modified; a backup is written exactly when autosave is on and a counter passed its limit, and it resets both counters; while autosave is on the counters never rest above their limits |
| Documents.Document.constructor | source/Document.cpp:3273-3326 | A new document has the given file name and an empty buffer, is unmodified, has no file name set, no bookmarks, empty histories, zero autosave counters and the autosave preference; its path is left unspecified |
| Documents.Document.SetWindowModified | source/Document.cpp:1805-1816 | Afterwards the modified flag is the requested value |
| Documents.Document.ModifiedCB | source/Document.cpp:231-295 | The new edit fields and the outcome are exactly the gate's verdict on the old fields |
| Documents.Document.DragStartCB | source/Document.cpp:347-356 | Journaling is suspended for the drag |
| Documents.Document.DragEndCB | source/Document.cpp:358-375 | Journaling resumes; a cancelled drag (nothing inserted) records nothing and changes nothing else; otherwise the whole drag passes through the gate with journaling on |
| Documents.Document.SetAllUnjournaled | source/Document.cpp:2737-2739 | The buffer is replaced while the counters and the modified flag stay as they were, and journaling is back on |
| Documents.Document.ResetToUntitled | source/Document.cpp:2728-2765 | The kept document is an empty, unmodified Untitled document with no path, no bookmarks, no file name set and no undo or redo history |
| Documents.Document.CopyFileFields | source/Document.cpp:3151-3161 | File name, path and file and autosave state equal the original's |
| Documents.Document.CloneHistory | source/Document.cpp:3207-3211 | The undo and redo lists are independent copies of the original's, and the bookmark count is the original's |
| Documents.Document.CopyDocumentState | source/Document.cpp:3098-3211 | The clone's file state equals the original's, with journaling on and independent copies of both histories |
| Documents.Document.CloneFrom | source/Document.cpp:3098-3211 | As CopyDocumentState, and the clone's panes mirror the original's with its own new widgets (heights only when split; an unsplit clone keeps its own height) |
| Registry.Without | source/Document.cpp:1128-1141 | Unlinking a registered document shortens the list by one; unlinking an unregistered one leaves it as it was |
| Registry.Erase | source/Document.cpp:1128-1141 | The reference definition: exactly the elements other than d, in order, without repeats when the list had none |
| Registry.WithoutIsErase | source/Document.cpp:1128-1141 | In a list without repeats, unlinking d equals erasing it: every other document stays, in the same relative order |
| Registry.WithoutKeepsOthers | source/Document.cpp:1128-1141 | Unlinking d keeps every other document registered |
| Registry.InsertAfter | source/Document.cpp:2085-2087 | The relinked list is one longer and holds the old documents plus the clone |
| Registry.InsertAfterSplit | source/Document.cpp:2085-2087 | The clone sits directly after the original and every other document keeps its place relative to it |
| Registry.InsertAfterDistinct | source/Document.cpp:2085-2087 | Linking a new document in keeps the list without repeats |
| Registry.Replace | source/Document.cpp:2085-2100 | The list with the original replaced, in its place, by the clone |
| Registry.RelinkThenClose | source/Document.cpp:2085-2100 | Linking the clone after the original and then unlinking the original leaves the clone in the original's place |
| Registry.CountShell | source/Document.cpp:1412-1422 | A shell never counts more documents than are registered |
| Registry.CountZero | source/Document.cpp:1412-1422 | A shell counts zero documents exactly when no registered document is shown in it |
| Registry.CountWithout | source/Document.cpp:1412-1422 | Unlinking a document lowers its own shell's count by one and no other shell's |
| Registry.CountAddHead | source/Document.cpp:1118-1123 | A document added at the head raises its own shell's count by one and no other shell's |
| Registry.ThreadsDistinct | source/Document.cpp:1118-1141 | A list threaded through `next` fields and ending in null has no document twice |
| Registry.PushThreads | source/Document.cpp:1118-1123 | addToWindowList's assignments thread the new document followed by the old list |
| Registry.PopThreads | source/Document.cpp:1131-1132 | Moving WindowList to the head's successor threads the rest of the list |
| Registry.UnlinkThreads | source/Document.cpp:1134-1138 | Bypassing the successor of one document threads the list without that successor |
| Registry.RelinkThreads | source/Document.cpp:2085-2087 | The three pointer assignments turn the list headed by the clone into the old list with the clone directly after the original |
| Registry.FocusAfterRaise | source/Document.cpp:3022-3024 | The raised document becomes active; the last document changes only to the previous active one, and only when it differs and is still registered |
| Registry.LastDocumentToggles | source/Document.cpp:865-883 | Going back to the last document and then back again alternates between the two documents |
| Registry.ShowTabBarRule | source/Document.cpp:931-940 | No tab bar without the preference; a single document shows it unless the hide-one preference is set; several always show it |
| Registry.WindowTabBarRule | source/Document.cpp:2379-2389 | ShowWindowTabBar's rule: the bar only with the preference, always without hide-one, and with hide-one exactly for more than one document |
| Registry.TabBarRulesAgree | source/Document.cpp:931-940 | GetShowTabBar and ShowWindowTabBar decide alike for every window that holds a document |
| Registry.WindowRegistry.constructor | source/Document.cpp:84-85 | At start no document is registered and neither focus global points anywhere |
| Registry.WindowRegistry.AddToWindowList | source/Document.cpp:1118-1123 | The document becomes the head with the old list intact behind it |
| Registry.WindowRegistry.RemoveFromWindowList | source/Document.cpp:1128-1141 | The list becomes `Without(old list, d)`: d is gone and the other documents keep their order |
| Registry.WindowRegistry.Unlink | source/Document.cpp:1134-1138 | Unlinking from a predecessor removes exactly the document after it |
| Registry.WindowRegistry.IsValidWindow | source/Document.cpp:917-926 | True exactly when the document is registered |
| Registry.WindowRegistry.IsOnlyDocument | source/Document.cpp:2728-2728 | True exactly when the list holds this document and no other |
| Registry.WindowRegistry.IsTopDocument | source/Document.cpp:899-901 | Whether the document is the one its shell shows; when it is, no other document of that shell is on top |
| Registry.WindowRegistry.NDocuments | source/Document.cpp:1412-1422 | The number of registered documents in the document's shell |
| Registry.WindowRegistry.MarkActiveDocument | source/Document.cpp:853-860 | Answers the previous active document and records the given one, or keeps the old one when none is given |
| Registry.WindowRegistry.MarkLastDocument | source/Document.cpp:841-848 | Answers the previous last document and records the given one, or keeps the old one when none is given |
| Registry.WindowRegistry.RaiseDocument | source/Document.cpp:3016-3032 | Nothing happens without a document or a registry; otherwise the focus history is updated as `FocusAfterRaise` says and the document becomes its shell's top |
| Registry.WindowRegistry.LastDocument | source/Document.cpp:865-883 | Raises the last document when it is still registered, and changes nothing otherwise |
| Registry.WindowRegistry.SyncShell | source/Document.cpp:1651-1656 | Every other registered document of the shell takes the new setting and nothing else changes |
| Registry.WindowRegistry.SetShellSetting | source/Document.cpp:1645-1656 | The document and its whole shell take the setting; documents of one shell that agreed before still agree |
| Registry.WindowRegistry.ShowISearchLine | source/Document.cpp:1642-1657 | No change when the document already has the setting; otherwise it and its shell take it, and agreeing shells keep agreeing |
| Registry.WindowRegistry.ShowStatsLine | source/Document.cpp:2445-2468 | The document and its shell always take the setting, and agreeing shells keep agreeing |
| Registry.WindowRegistry.ShowLineNumbers | source/Document.cpp:2394-2440 | No change when the document already has the setting; otherwise it and its shell take it, and agreeing shells keep agreeing |
| Registry.WindowRegistry.GetShowTabBar | source/Document.cpp:931-940 | The tab bar rule applied to the number of documents in the shell |
| Registry.WindowRegistry.NewWindow | source/Document.cpp:3296-3298 | A new document in a new shell gets the preferred settings, shows on top of that shell, is alone in it and joins the head of the list |
| Registry.WindowRegistry.CreateDocument | source/Document.cpp:3672-3677 | A new tab of the host's shell gets the host's shell and settings, joins the head of the list, raises the shell's count by one and keeps agreeing shells agreeing |
| Registry.WindowRegistry.RelinkAfter | source/Document.cpp:2085-2087 | The clone leaves the head and is linked in directly after the original |
| Lifecycle.NextTab | source/Document.cpp:2071-2073 | The successor chosen for a document with siblings is another registered document of the same shell, namely the tab after it, or the one before it when it is the last tab |
| Lifecycle.Successor | source/Document.cpp:2781-2791 | The document raised before a close: nothing for a document alone in its shell, otherwise the macro's document or one of the shell's tabs, and always one for a top document that shares its shell |
| Lifecycle.HandOver | source/Document.cpp:3016-3032 | After raising a successor it is the active document and the top of its shell, every other shell keeps its top, and with no successor nothing changes |
| Lifecycle.RaiseSuccessor | source/Document.cpp:2781-2791 | The focus history and the shell's top are exactly those after raising the successor (the macro's document when it is another document of the shell, else the next tab for a top document with siblings), and unchanged when there is none; a top document with siblings hands the top of its shell to another of its documents |
| Lifecycle.SuccessorIsSibling | source/Document.cpp:2781-2791 | The document raised before a close is another registered document of the closing document's shell, and a top document with siblings always has one |
| Lifecycle.Unregister | source/Document.cpp:2781-2795 | The document leaves the list and its shell's count, after its successor, if any, was raised; a top document with siblings leaves its shell showing another of them |
| Lifecycle.UnlinkDocument | source/Document.cpp:2795-2795 | The document leaves the list and its shell's count, and a shell that showed another document still shows it |
| Lifecycle.CloseWindow | source/Document.cpp:2689-2846 | A document kept for a macro or alone in the list is reset to an empty Untitled document and stays registered; otherwise its history is freed, its file state is kept, its successor, if any, is raised, and it leaves the list and its shell's count, handing the top over when it was on top with siblings |
| Lifecycle.TakeSetting | source/Document.cpp:2092-2093 | A document alone in its shell takes one setting and no other document changes |
| Lifecycle.TakeSettings | source/Document.cpp:2092-2093 | The detached clone ends with exactly the given settings and no other document changes |
| Lifecycle.AddDetachedClone | source/Document.cpp:2077-2093 | The clone is alone in a new shell that shows it, directly after the original in the list, with the original's settings; no other document's settings change |
| Lifecycle.OpenAfter | source/Document.cpp:2077-2087 | A new shell with one new document, linked directly after the original |
| Lifecycle.DetachInRegistry | source/Document.cpp:2066-2093 | The registry after a detach: the successor, if any, was raised in the original's shell and the new shell shows the clone; the original's shell shows another document when the original was on top |
| Lifecycle.NewCopy | source/Document.cpp:2077-2077 | A new document holding the original's file state, its pane layout with new widgets and copies of its undo and redo lists; its panes, pane arrays and undo and redo records are all newly allocated, so nothing is shared with the original |
| Lifecycle.CopyAndRelease | source/Document.cpp:2077-2099 | The new copy as NewCopy states it, after which the original is marked unmodified |
| Lifecycle.MarkUnchanged | source/Document.cpp:2099-2099 | The original is marked unmodified and the clone's copy is unaffected |
| Lifecycle.DetachDocument | source/Document.cpp:2063-2113 | A document alone in its shell is not detached and nothing changes; otherwise the successor, if any, is raised, and a fresh clone follows the original in the list, alone in a new shell that shows it, with the original's settings, file state, panes and history in newly allocated objects; the original is marked unmodified, and a top original leaves its shell showing another document |
| Lifecycle.MoveInRegistry | source/Document.cpp:2338-2360 | The registry after a move, with the focus history and tops as after raising the successor, if any; the original's shell shows another document when the original was on top with siblings |
| Lifecycle.AddMovedClone | source/Document.cpp:2348-2360 | The clone joins the host's shell directly after the original, with the host's settings and the original's line numbers setting, which the host shell takes too when it differed |
| Lifecycle.JoinHost | source/Document.cpp:3105-3105 | A new tab of the host's shell at the head of the list, given a line numbers setting that its shell takes when it is new |
| Lifecycle.MoveDocument | source/Document.cpp:2334-2363 | A fresh clone follows the original in the list, in the host's shell with the host's settings and the original's line numbers, holding the original's file state, panes and history in newly allocated objects; the successor, if any, is raised, the original is marked unmodified, and a top original with siblings leaves its shell showing another document |

## Left out

- Every X11/Motif call is display work and is not modelled. This covers widget creation and destruction, managing and unmanaging, setting resources, raising and lowering windows, menu sensitivity, tab widgets, tear-off menus, tool bars, icons and the tab-bar expose queue. Widgets are opaque ids.
- Deferred timers (`wmSizeUpdateProc`, `closeTabProc`) are event-loop plumbing and are not modelled.
- Font and pixel geometry is not modelled: `UpdateWMSizeHints`, `SetFonts`, `getTextPaneDimension`, `UpdateMinPaneHeights`, `MakeSelectionVisible` and the gutter width computation. It depends on font metrics and on floating point.
- `MoveDocumentDialog` is not modelled. It is a modal dialog with its own event loop; `MoveDocument` takes the chosen target as a parameter.
- `SortTabBar` is not modelled. Its comparator is not a strict weak ordering, so sorting with it has no defined result. The tab order reaches the model as the `tabs` parameter instead.
- These collaborators are outside this file and are not modelled: `UpdateMarkTable`, `WriteBackupFile` (modelled only as the `backupWritten` outcome), `CheckForChangesToFile`, `updateLineNumDisp`, `UpdateStatsLine`, syntax highlighting, smart indent, language modes, rangeset cloning, selection transfer, and the macro, shell-command and multi-replace clean-up in `CloseWindow`.
- `keepWindow` in `CloseWindow` is a parameter. It is the answer of `MacroWindowCloseActions`, which is not part of this model. `MacroRunWindow()` is a parameter too.
- Undo record contents are one opaque value. `SaveUndoInformation`, coalescing and undo/redo replay are not part of this model. The characters and operations it counts towards autosave enter `ModifiedCB` as parameters.
- The values of `MAX_PANES` (6), `AUTOSAVE_CHAR_LIMIT` (30) and `AUTOSAVE_OP_LIMIT` (8) come from `nedit.h`, which is not part of this model. The proofs do not depend on these values.
- The per-pane arrays are not modelled as locals filled from the widgets. In the source they are local arrays, filled from the text widgets and written back to them; in the model they are fields of `PaneSet` standing for the widgets' own state. The C `short` type of the heights (truncation to 16 bits) is not modelled.
- The selection transfer, tab distances, fonts, backlighting, language mode, lock reasons, file format and modification time, device and inode, search history, indent style and bookmark table contents of `cloneDocument` are not modelled. They are plain copies or calls to collaborators. Only the bookmark count is kept.
- The closing of the original after a detach or move (`CloseFileAndWindow`) is not modelled, and neither is the later refresh of window states, tab state and tab sort. Closing the original goes through `CloseWindow`, and `Registry.RelinkThenClose` states the list that results.
- The model does not follow the source's step order inside `MoveDocument`. The source copies the document state before relinking; the model does the registry work first, including the relink, and then the copy. The two steps touch disjoint state. `ShowLineNumbers` runs before the relink in both.
- Lifecycle.MoveDocument: does not model the final raise of the clone (source/Document.cpp:2372), which makes it the active document and the top of the host's shell. It runs after the original is closed by `CloseFileAndWindow`, which is not modelled, so the contract gives the focus history and tops as they are before that close.
- Documents.Document.constructor: does not state the document's path. The source constructor never assigns it, so its value is whatever the object's storage held, and the model promises nothing about it.
- Lifecycle.DetachDocument: does not state that documents of one shell still agree on their settings afterwards. Only that the clone has the original's settings and that no other document's settings change.
- Registry.WindowRegistry.NewWindow: does not state that documents of one shell still agree on their settings afterwards. The new document is alone in its shell, so it cannot disagree with another.
- Registry.WindowRegistry.RemoveFromWindowList: a removed document keeps its stale `next` entry, as in the source. A shell whose last document was closed keeps a stale top entry; the source destroys that shell, and shells are not modelled beyond their ids.
- Registry.WindowRegistry.RaiseDocument: when no document was active before, the source calls `IsValidWindow` through a null pointer. In practice that answers false, and the model records no last document in that case.
- TabNavigation.GetNextTabWindow: requires the tab list to hold `nBuf` tabs. The source allocates `nBuf` slots and indexes them below `nBuf`, so with fewer valid tabs it would read an unset slot. The cross-window count `NWindows()` is the caller's `nBuf`.
- Registry.WindowRegistry.LastDocument: when the last document lives in another shell, the source also raises that shell window. That is display work, so only the document's raise is modelled.
- Integer overflow of the C `int` counters and indices is not modelled. The autosave counters are reset well before it could happen, and pane indices stay below `MAX_PANES + 1`.
