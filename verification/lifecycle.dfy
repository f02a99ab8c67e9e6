/**
 * Closing, detaching and moving documents: the operations that combine a
 * document's own state with the registry of all documents.
 */
module Lifecycle {
  import opened Ids
  import opened Seqs
  import opened Panes
  import opened UndoLists
  import opened Documents
  import opened Registry
  import opened TabNavigation

  /**
   * `tabs` is the tab bar of shell `sh`: each registered document of the
   * shell once, in tab order.
   */
  ghost predicate IsTabBar(reg: WindowRegistry, sh: ShellId, tabs: seq<DocId>)
    reads reg
    requires reg.Valid()
  {
    && Distinct(tabs)
    && |tabs| == CountShell(reg.Docs, reg.shellOf, sh)
    && forall t :: t in tabs ==> t in reg.Docs && reg.shellOf[t] == sh
  }

  /**
   * The successor getNextTabWindow(1, 0, 0) picks for a document whose
   * shell holds other documents is another registered document of that
   * shell.
   */
  method NextTab(reg: WindowRegistry, d: DocId, tabs: seq<DocId>, n: int) returns (win: Option<DocId>)
    requires reg.Valid() && d in reg.Docs && IsTabBar(reg, reg.shellOf[d], tabs) && d in tabs
    requires n == |tabs| && n > 1
    ensures win.Some? && win.value != d && win.value in reg.Docs && reg.shellOf[win.value] == reg.shellOf[d]
    ensures win == Some(tabs[NextTabPos(TabPosition(d, tabs), 1, n, false).value])
  {
    win := GetNextTabWindow(d, tabs, n, 1, false);
    var p := TabPosition(d, tabs);
    StepNeverStays(p, 1, n, false);
    var q := NextTabPos(p, 1, n, false).value;
    assert tabs[q] != tabs[p];
  }

  /**
   * The document raised before document `id` is closed, `tabs` being its
   * shell's tab bar: when the shell holds others, the document a macro
   * runs in if that is another document of the shell, or else the next tab
   * if `id` is on top; None when nothing is raised.
   */
  function Successor(shellOf: map<DocId, ShellId>, top: map<ShellId, DocId>, id: DocId,
                     macroRunWindow: Option<DocId>, tabs: seq<DocId>): (r: Option<DocId>)
    requires id in shellOf && (macroRunWindow.Some? ==> macroRunWindow.value in shellOf)
    requires id in tabs
    // a document alone in its shell raises nothing
    ensures |tabs| <= 1 ==> r.None?
    // otherwise the macro's document, or one of the shell's tabs
    ensures r.Some? ==> r == macroRunWindow || r.value in tabs
    // a top document that shares its shell always has a successor
    ensures |tabs| > 1 && shellOf[id] in top && top[shellOf[id]] == id ==> r.Some?
  {
    var n := |tabs|;
    if n <= 1 then None
    else if macroRunWindow.Some? && macroRunWindow != Some(id) && shellOf[macroRunWindow.value] == shellOf[id]
    then macroRunWindow
    else if shellOf[id] in top && top[shellOf[id]] == id
    then Some(tabs[NextTabPos(TabPosition(id, tabs), 1, n, false).value])
    else None
  }

  /**
   * The successor is another registered document of the closing
   * document's shell, and a top document that shares its shell always
   * has one.
   */
  lemma SuccessorIsSibling(reg: WindowRegistry, id: DocId, macroRunWindow: Option<DocId>, tabs: seq<DocId>, n: int)
    requires reg.Valid() && id in reg.Docs && n == reg.Count(reg.shellOf[id])
    requires macroRunWindow.Some? ==> macroRunWindow.value in reg.Docs
    requires IsTabBar(reg, reg.shellOf[id], tabs) && id in tabs
    ensures var s := Successor(reg.shellOf, reg.top, id, macroRunWindow, tabs);
      && (s.Some? ==> s.value != id && s.value in reg.Docs && reg.shellOf[s.value] == reg.shellOf[id])
      && (n > 1 && reg.IsTopDocument(id) ==> s.Some?)
  {
    var sh := reg.shellOf[id];
    if n > 1 && !(macroRunWindow.Some? && macroRunWindow != Some(id) && reg.shellOf[macroRunWindow.value] == sh) {
      var p := TabPosition(id, tabs);
      StepNeverStays(p, 1, n, false);
      var q := NextTabPos(p, 1, n, false).value;
      assert tabs[q] != tabs[p];
    }
  }

  /**
   * The focus history and top documents once `succ`, if any, has been
   * raised in shell `sh`; nothing changes when there is no successor.
   */
  function HandOver(inFocus: Option<DocId>, lastFocus: Option<DocId>, top: map<ShellId, DocId>,
                    docs: seq<DocId>, sh: ShellId, succ: Option<DocId>)
    : (r: (Option<DocId>, Option<DocId>, map<ShellId, DocId>))
    ensures succ.None? ==> r == (inFocus, lastFocus, top)
    // the successor becomes active and the top of shell `sh`
    ensures succ.Some? ==> r.0 == succ && sh in r.2 && r.2[sh] == succ.value
    // every other shell keeps its top document
    ensures r.2.Keys == top.Keys + (if succ.Some? then {sh} else {})
    ensures forall s :: s in top && s != sh ==> r.2[s] == top[s]
  {
    if succ.None? then (inFocus, lastFocus, top)
    else
      var focus := FocusAfterRaise(inFocus, lastFocus, succ.value, docs);
      (focus.0, focus.1, top[sh := succ.value])
  }

  /**
   * Before a document that shares its shell is closed, a successor is
   * raised: the document a macro runs in, when that is another document
   * of the shell, or else the next tab when the closing document is on top.
   */
  method RaiseSuccessor(reg: WindowRegistry, id: DocId, macroRunWindow: Option<DocId>, tabs: seq<DocId>, n: int)
    requires reg.Valid() && id in reg.Docs && n == reg.Count(reg.shellOf[id])
    requires macroRunWindow.Some? ==> macroRunWindow.value in reg.Docs
    requires IsTabBar(reg, reg.shellOf[id], tabs) && id in tabs
    modifies reg`inFocus, reg`lastFocus, reg`top
    ensures (reg.inFocus, reg.lastFocus, reg.top)
      == HandOver(old(reg.inFocus), old(reg.lastFocus), old(reg.top), reg.Docs, reg.shellOf[id],
                  Successor(reg.shellOf, old(reg.top), id, macroRunWindow, tabs))
    ensures old(reg.IsTopDocument(id)) && n > 1 ==> reg.ShowsOther(reg.shellOf[id], id)
  {
    var sh := reg.shellOf[id];
    if n > 1 {
      if macroRunWindow.Some? && macroRunWindow != Some(id) && reg.shellOf[macroRunWindow.value] == sh {
        reg.RaiseDocument(macroRunWindow);
      } else if reg.IsTopDocument(id) {
        var nextBuf := NextTab(reg, id, tabs, n);
        reg.RaiseDocument(nextBuf);
      }
    }
  }

  /**
   * The closing half of CloseWindow for a document that is not the last
   * one: raise a successor where one is needed, then unregister it.
   */
  method Unregister(reg: WindowRegistry, id: DocId, macroRunWindow: Option<DocId>, tabs: seq<DocId>)
    requires reg.Valid() && id in reg.Docs
    requires macroRunWindow.Some? ==> macroRunWindow.value in reg.Docs
    requires IsTabBar(reg, reg.shellOf[id], tabs) && id in tabs
    modifies reg`head, reg`next, reg`Docs, reg`inFocus, reg`lastFocus, reg`top
    ensures reg.Valid() && reg.Docs == Without(old(reg.Docs), id)
    ensures reg.Count(reg.shellOf[id]) == old(reg.Count(reg.shellOf[id])) - 1
    ensures (reg.inFocus, reg.lastFocus, reg.top)
      == HandOver(old(reg.inFocus), old(reg.lastFocus), old(reg.top), old(reg.Docs), reg.shellOf[id],
                  Successor(reg.shellOf, old(reg.top), id, macroRunWindow, tabs))
    ensures old(reg.IsTopDocument(id)) && old(reg.Count(reg.shellOf[id])) > 1 ==> reg.ShowsOther(reg.shellOf[id], id)
  {
    var n := reg.NDocuments(id);
    RaiseSuccessor(reg, id, macroRunWindow, tabs, n);
    UnlinkDocument(reg, id);
  }

  /**
   * removeFromWindowList as CloseWindow uses it: the document leaves the
   * list and its shell's count, and a shell showing another of its
   * documents still does.
   */
  method UnlinkDocument(reg: WindowRegistry, id: DocId)
    requires reg.Valid() && id in reg.Docs
    modifies reg`head, reg`next, reg`Docs
    ensures reg.Valid() && reg.Docs == Without(old(reg.Docs), id)
    ensures reg.Count(reg.shellOf[id]) == old(reg.Count(reg.shellOf[id])) - 1
    ensures old(reg.ShowsOther(reg.shellOf[id], id)) ==> reg.ShowsOther(reg.shellOf[id], id)
  {
    var sh := reg.shellOf[id];
    ghost var docs := reg.Docs;
    CountWithout(docs, id, reg.shellOf, sh);
    ghost var shows := reg.ShowsOther(sh, id);
    reg.RemoveFromWindowList(id);
    if shows {
      WithoutKeepsOthers(docs, id, reg.top[sh]);
    }
  }

  /**
   * CloseWindow's registry and document bookkeeping.  A document that must
   * stay alive for the macro closing it, or that is the only registered
   * document, is reset to an empty Untitled document and stays registered.
   * Otherwise its undo and redo lists are freed and it is unregistered,
   * handing its shell's top over to another document when it was on top.
   */
  method CloseWindow(reg: WindowRegistry, doc: Document, keepWindow: bool, macroRunWindow: Option<DocId>,
                     tabs: seq<DocId>, untitledName: string)
    requires reg.Valid() && doc.id in reg.Docs
    requires macroRunWindow.Some? ==> macroRunWindow.value in reg.Docs
    requires IsTabBar(reg, reg.shellOf[doc.id], tabs) && doc.id in tabs
    modifies reg`head, reg`next, reg`Docs, reg`inFocus, reg`lastFocus, reg`top, doc
    // the document kept open becomes an empty, unmodified Untitled document
    ensures keepWindow || old(reg.Docs) == [doc.id] ==>
      && unchanged(reg)
      && doc.filename == untitledName && doc.path == "" && doc.buffer == "" && !doc.ignoreModify
      && doc.nMarks == 0 && !doc.filenameSet && !doc.fileChanged && doc.undo == [] && doc.redo == []
    // otherwise it leaves the list, and its shell's count, with its history freed
    ensures !keepWindow && old(reg.Docs) != [doc.id] ==>
      && reg.Valid() && reg.Docs == Without(old(reg.Docs), doc.id)
      && reg.Count(reg.shellOf[doc.id]) == old(reg.Count(reg.shellOf[doc.id])) - 1
      && doc.undo == [] && doc.redo == []
      && doc.FileState() == old(doc.FileState()) && doc.ignoreModify == old(doc.ignoreModify)
    // the successor, if any, is raised before it goes
    ensures !keepWindow && old(reg.Docs) != [doc.id] ==>
      (reg.inFocus, reg.lastFocus, reg.top)
      == HandOver(old(reg.inFocus), old(reg.lastFocus), old(reg.top), old(reg.Docs), reg.shellOf[doc.id],
                  Successor(reg.shellOf, old(reg.top), doc.id, macroRunWindow, tabs))
    // a top document that shares its shell hands the top over to another of the shell's documents
    ensures !keepWindow && old(reg.Docs) != [doc.id] && old(reg.IsTopDocument(doc.id))
            && old(reg.Count(reg.shellOf[doc.id])) > 1 ==>
      reg.ShowsOther(reg.shellOf[doc.id], doc.id)
  {
    var only := reg.IsOnlyDocument(doc.id);
    if keepWindow || only {
      doc.ResetToUntitled(untitledName);
      return;
    }
    doc.undo := [];
    doc.redo := [];
    Unregister(reg, doc.id, macroRunWindow, tabs);
  }

  /** A document of a shell of its own takes one setting: the change touches no other document. */
  method TakeSetting(reg: WindowRegistry, d: DocId, which: Setting, state: bool)
    requires reg.Valid() && d in reg.Docs
    requires forall x :: x in reg.Docs && x != d ==> reg.shellOf[x] != reg.shellOf[d]
    modifies reg`flags
    ensures reg.flags.Keys == old(reg.flags).Keys && reg.flags[d] == With(old(reg.flags)[d], which, state)
    ensures forall x :: x in reg.flags && x != d ==> reg.flags[x] == old(reg.flags)[x]
  {
    ghost var flags0 := reg.flags;
    match which
    case ISearchLine => reg.ShowISearchLine(d, state);
    case StatsLine => reg.ShowStatsLine(d, state);
    case LineNumbers => reg.ShowLineNumbers(d, state);
    if reg.flags == flags0 {
      assert With(flags0[d], which, state) == flags0[d];
    }
  }

  /**
   * The settings DetachDocument hands to a clone that has a shell of its
   * own: the incremental-search line and the statistics line, then (in
   * cloneDocument) the line numbers, all taken from `from`.
   */
  method TakeSettings(reg: WindowRegistry, d: DocId, from: ShellFlags)
    requires reg.Valid() && d in reg.Docs
    requires forall x :: x in reg.Docs && x != d ==> reg.shellOf[x] != reg.shellOf[d]
    modifies reg`flags
    ensures reg.flags.Keys == old(reg.flags).Keys && reg.flags[d] == from
    ensures forall x :: x in reg.flags && x != d ==> reg.flags[x] == old(reg.flags)[x]
  {
    TakeSetting(reg, d, ISearchLine, from.iSearchLine);
    TakeSetting(reg, d, StatsLine, from.statsLine);
    TakeSetting(reg, d, LineNumbers, from.lineNumbers);
  }

  /**
   * The registry half of DetachDocument: the constructor registers the
   * clone in a new shell, the clone is moved to just after the original in
   * the list, and it takes the original's shell settings.
   */
  method AddDetachedClone(reg: WindowRegistry, src: DocId, cloneId: DocId, cloneShell: ShellId, prefs: ShellFlags)
    requires reg.Valid() && src in reg.Docs
    requires cloneId !in reg.Docs && forall x :: x in reg.Docs ==> reg.shellOf[x] != cloneShell
    modifies reg`head, reg`next, reg`Docs, reg`shellOf, reg`flags, reg`top
    ensures reg.Valid() && reg.Docs == InsertAfter(old(reg.Docs), src, cloneId)
    ensures reg.shellOf == old(reg.shellOf)[cloneId := cloneShell] && reg.top == old(reg.top)[cloneShell := cloneId]
    ensures forall x :: x in reg.Docs && x != cloneId ==> reg.shellOf[x] != cloneShell
    ensures reg.flags.Keys == old(reg.flags).Keys + {cloneId} && reg.flags[cloneId] == old(reg.flags)[src]
    ensures forall x :: x in reg.flags && x != cloneId ==> reg.flags[x] == old(reg.flags)[x]
  {
    var from := reg.flags[src];
    OpenAfter(reg, src, cloneId, cloneShell, prefs);
    TakeSettings(reg, cloneId, from);
  }

  /**
   * A new shell holding one new document, linked into the registry list
   * directly after `src` rather than at its head.
   */
  method OpenAfter(reg: WindowRegistry, src: DocId, cloneId: DocId, cloneShell: ShellId, prefs: ShellFlags)
    requires reg.Valid() && src in reg.Docs
    requires cloneId !in reg.Docs && forall x :: x in reg.Docs ==> reg.shellOf[x] != cloneShell
    modifies reg`head, reg`next, reg`Docs, reg`shellOf, reg`flags, reg`top
    ensures reg.Valid() && reg.Docs == InsertAfter(old(reg.Docs), src, cloneId)
    ensures reg.shellOf == old(reg.shellOf)[cloneId := cloneShell] && reg.top == old(reg.top)[cloneShell := cloneId]
    ensures reg.flags == old(reg.flags)[cloneId := prefs]
    ensures forall x :: x in reg.Docs && x != cloneId ==> reg.shellOf[x] != cloneShell
  {
    reg.NewWindow(cloneId, cloneShell, prefs);
    reg.RelinkAfter(src, cloneId);
  }

  /**
   * DetachDocument: spin a document that shares its shell off into a shell
   * of its own.  A clone is created in a new shell, placed right after the
   * original in the registry list, given the original's shell settings and
   * then its file state, panes and history; the original is marked
   * unmodified, ready to be closed.  A top document first hands the top of
   * its shell to the next tab.  A document alone in its shell is left as it is.
   */
  method DetachDocument(reg: WindowRegistry, src: Document, tabs: seq<DocId>,
                        cloneId: DocId, cloneShell: ShellId, cloneText: WidgetId, newPanes: seq<WidgetId>,
                        prefs: ShellFlags, prefAutoSave: bool) returns (clone: Document?)
    requires reg.Valid() && src.id in reg.Docs && src.Valid()
    requires IsTabBar(reg, reg.shellOf[src.id], tabs) && src.id in tabs
    // the constructor's new document, shell and widgets
    requires cloneId !in reg.Docs && forall x :: x in reg.Docs ==> reg.shellOf[x] != cloneShell
    requires |newPanes| == src.panes.nPanes && Distinct([cloneText] + newPanes)
    modifies reg`head, reg`next, reg`Docs, reg`shellOf, reg`flags, reg`inFocus, reg`lastFocus, reg`top
    modifies src`fileChanged
    // a document alone in its shell is not detached
    ensures old(reg.Count(reg.shellOf[src.id])) < 2 ==> clone == null && unchanged(reg) && unchanged(src)
    ensures old(reg.Count(reg.shellOf[src.id])) >= 2 ==>
      && clone != null && fresh(clone) && clone.id == cloneId
      && DetachedInRegistry(reg, src.id, cloneId, cloneShell, old(reg.Docs), old(reg.shellOf), old(reg.flags))
      && CopiedFrom(clone, src.panes, src.undo, src.redo, old(src.FileState()))
      && !src.fileChanged
    ensures clone != null ==>
      && fresh(clone.panes) && fresh(clone.panes.textPanes) && fresh(clone.panes.PaneArrays())
      && forall u :: u in clone.undo || u in clone.redo ==> fresh(u)
    // a top original first hands its shell to the next tab
    ensures old(reg.Count(reg.shellOf[src.id])) >= 2 ==>
      var h := HandOver(old(reg.inFocus), old(reg.lastFocus), old(reg.top), old(reg.Docs), old(reg.shellOf[src.id]),
                        Successor(old(reg.shellOf), old(reg.top), src.id, None, tabs));
      reg.inFocus == h.0 && reg.lastFocus == h.1 && reg.top == h.2[cloneShell := cloneId]
    // the original's shell shows another of its documents when the original was on top
    ensures old(reg.Count(reg.shellOf[src.id])) >= 2 && old(reg.IsTopDocument(src.id)) ==>
      reg.ShowsOther(old(reg.shellOf[src.id]), src.id)
  {
    var n := reg.NDocuments(src.id);
    if n < 2 {
      return null;
    }
    DetachInRegistry(reg, src.id, tabs, n, cloneId, cloneShell, prefs);
    clone := CopyAndRelease(src, cloneId, cloneText, newPanes, prefAutoSave);
  }

  /**
   * The document half shared by a detach and a move: the new copy of
   * `src`, after which the original is marked unmodified.
   */
  method CopyAndRelease(src: Document, cloneId: DocId, cloneText: WidgetId, newPanes: seq<WidgetId>, prefAutoSave: bool)
    returns (clone: Document)
    requires src.Valid() && |newPanes| == src.panes.nPanes && Distinct([cloneText] + newPanes)
    modifies src`fileChanged
    ensures fresh(clone) && clone.id == cloneId
    ensures CopiedFrom(clone, src.panes, src.undo, src.redo, old(src.FileState())) && !src.fileChanged
    ensures fresh(clone.panes) && fresh(clone.panes.textPanes) && fresh(clone.panes.PaneArrays())
    ensures forall u :: u in clone.undo || u in clone.redo ==> fresh(u)
  {
    clone := NewCopy(src, cloneId, cloneText, newPanes, prefAutoSave);
    MarkUnchanged(src, clone, old(src.FileState()));
  }

  /**
   * The original is marked unmodified so that closing it asks nothing;
   * the copy made from it is left as it is.
   */
  method MarkUnchanged(src: Document, clone: Document, ghost file0: FileFields)
    requires clone != src && CopiedFrom(clone, src.panes, src.undo, src.redo, file0)
    modifies src`fileChanged
    ensures CopiedFrom(clone, src.panes, src.undo, src.redo, file0)
    ensures !src.fileChanged
  {
    src.fileChanged := false;
  }

  /**
   * The registry half of DetachDocument: a top original hands its shell to
   * the next tab, then the clone's new shell is opened right after it.
   */
  method DetachInRegistry(reg: WindowRegistry, srcId: DocId, tabs: seq<DocId>, n: int,
                          cloneId: DocId, cloneShell: ShellId, prefs: ShellFlags)
    requires reg.Valid() && srcId in reg.Docs
    requires IsTabBar(reg, reg.shellOf[srcId], tabs) && srcId in tabs
    requires n == reg.Count(reg.shellOf[srcId]) && n >= 2
    requires cloneId !in reg.Docs && forall x :: x in reg.Docs ==> reg.shellOf[x] != cloneShell
    modifies reg`head, reg`next, reg`Docs, reg`shellOf, reg`flags, reg`inFocus, reg`lastFocus, reg`top
    ensures DetachedInRegistry(reg, srcId, cloneId, cloneShell, old(reg.Docs), old(reg.shellOf), old(reg.flags))
    ensures var h := HandOver(old(reg.inFocus), old(reg.lastFocus), old(reg.top), old(reg.Docs), old(reg.shellOf[srcId]),
                              Successor(old(reg.shellOf), old(reg.top), srcId, None, tabs));
      reg.inFocus == h.0 && reg.lastFocus == h.1 && reg.top == h.2[cloneShell := cloneId]
    ensures old(reg.IsTopDocument(srcId)) ==> reg.ShowsOther(old(reg.shellOf[srcId]), srcId)
  {
    RaiseSuccessor(reg, srcId, None, tabs, n);
    AddDetachedClone(reg, srcId, cloneId, cloneShell, prefs);
  }

  /**
   * The registry after a detach: the clone follows the original in the
   * list, alone in a new shell that shows it, with the original's settings.
   */
  ghost predicate DetachedInRegistry(reg: WindowRegistry, srcId: DocId, cloneId: DocId, cloneShell: ShellId,
                                     docs0: seq<DocId>, shells0: map<DocId, ShellId>, flags0: map<DocId, ShellFlags>)
    reads reg
  {
    && srcId in docs0 && srcId in flags0
    && reg.Valid() && reg.Docs == InsertAfter(docs0, srcId, cloneId)
    && reg.shellOf == shells0[cloneId := cloneShell] && cloneShell in reg.top && reg.top[cloneShell] == cloneId
    && (forall x :: x in reg.Docs && x != cloneId ==> reg.shellOf[x] != cloneShell)
    && reg.flags.Keys == flags0.Keys + {cloneId} && reg.flags[cloneId] == flags0[srcId]
    && (forall x :: x in reg.flags && x != cloneId ==> reg.flags[x] == flags0[x])
  }

  /** `clone` holds a copy of a document's file state, pane layout and history. */
  ghost predicate CopiedFrom(clone: Document, srcPanes: PaneSet, srcUndo: seq<UndoInfo>, srcRedo: seq<UndoInfo>, file0: FileFields)
    reads srcPanes, srcPanes.textPanes, srcPanes.PaneArrays(), srcUndo, srcRedo
    reads clone, clone.panes, clone.panes.textPanes, clone.panes.PaneArrays(), clone.undo, clone.redo
  {
    && clone.FileState() == file0
    && clone.panes.Valid() && srcPanes.Valid() && clone.panes.SamePanes(srcPanes)
    && IsCopyOf(clone.undo, srcUndo) && IsCopyOf(clone.redo, srcRedo)
  }

  /**
   * The document half of a detach or a move: a new document with its own
   * text widget and panes, holding a copy of `src`'s file state, pane
   * layout and history.
   */
  method NewCopy(src: Document, cloneId: DocId, cloneText: WidgetId, newPanes: seq<WidgetId>, prefAutoSave: bool)
    returns (clone: Document)
    requires src.Valid() && |newPanes| == src.panes.nPanes && Distinct([cloneText] + newPanes)
    ensures fresh(clone) && clone.id == cloneId && clone.FileState() == src.FileState()
    ensures clone.panes.Valid() && clone.panes.Widgets() == [cloneText] + newPanes && clone.panes.SamePanes(src.panes)
    ensures IsCopyOf(clone.undo, src.undo) && IsCopyOf(clone.redo, src.redo)
    // nothing of the copy is shared with the original
    ensures fresh(clone.panes) && fresh(clone.panes.textPanes) && fresh(clone.panes.PaneArrays())
    ensures forall u :: u in clone.undo || u in clone.redo ==> fresh(u)
  {
    clone := new Document(cloneId, cloneText, src.filename, prefAutoSave);
    clone.CloneFrom(src, newPanes);
  }

  /**
   * MoveDocument: move a document into the shell of `toWindow`.  A clone
   * is created there, taking that shell's settings except for line
   * numbers, which it takes from the original and passes on to its new
   * shell; it is placed right after the original in the registry list and
   * given the original's file state, panes and history, and the original
   * is marked unmodified, ready to be closed.  A top document that shares
   * its shell first hands the top of its shell to the next tab.
   */
  method MoveDocument(reg: WindowRegistry, src: Document, tabs: seq<DocId>, toWindow: DocId,
                      cloneId: DocId, cloneText: WidgetId, newPanes: seq<WidgetId>, prefAutoSave: bool)
    returns (clone: Document)
    requires reg.Valid() && src.id in reg.Docs && src.Valid()
    requires IsTabBar(reg, reg.shellOf[src.id], tabs) && src.id in tabs
    requires toWindow in reg.Docs
    // CreateDocument's new document and widgets
    requires cloneId !in reg.Docs
    requires |newPanes| == src.panes.nPanes && Distinct([cloneText] + newPanes)
    modifies reg`head, reg`next, reg`Docs, reg`shellOf, reg`flags, reg`inFocus, reg`lastFocus, reg`top
    modifies src`fileChanged
    ensures fresh(clone) && clone.id == cloneId
    ensures MovedInRegistry(reg, src.id, cloneId, toWindow, old(reg.Docs), old(reg.shellOf), old(reg.flags))
    ensures CopiedFrom(clone, src.panes, src.undo, src.redo, old(src.FileState())) && !src.fileChanged
    ensures fresh(clone.panes) && fresh(clone.panes.textPanes) && fresh(clone.panes.PaneArrays())
    ensures forall u :: u in clone.undo || u in clone.redo ==> fresh(u)
    // a top original that shares its shell first hands it to the next tab
    ensures (reg.inFocus, reg.lastFocus, reg.top)
      == HandOver(old(reg.inFocus), old(reg.lastFocus), old(reg.top), old(reg.Docs), old(reg.shellOf[src.id]),
                  Successor(old(reg.shellOf), old(reg.top), src.id, None, tabs))
    // the original's shell shows another of its documents when the original was on top
    ensures old(reg.Count(reg.shellOf[src.id])) >= 2 && old(reg.IsTopDocument(src.id)) ==>
      reg.ShowsOther(old(reg.shellOf[src.id]), src.id)
  {
    MoveInRegistry(reg, src.id, tabs, toWindow, cloneId);
    clone := CopyAndRelease(src, cloneId, cloneText, newPanes, prefAutoSave);
  }

  /**
   * The registry half of MoveDocument: a top original that shares its
   * shell hands it to the next tab, then the clone joins the host's shell
   * and is relinked right after the original.
   */
  method MoveInRegistry(reg: WindowRegistry, srcId: DocId, tabs: seq<DocId>, toWindow: DocId, cloneId: DocId)
    requires reg.Valid() && srcId in reg.Docs && toWindow in reg.Docs && cloneId !in reg.Docs
    requires IsTabBar(reg, reg.shellOf[srcId], tabs) && srcId in tabs
    modifies reg`head, reg`next, reg`Docs, reg`shellOf, reg`flags, reg`inFocus, reg`lastFocus, reg`top
    ensures MovedInRegistry(reg, srcId, cloneId, toWindow, old(reg.Docs), old(reg.shellOf), old(reg.flags))
    ensures (reg.inFocus, reg.lastFocus, reg.top)
      == HandOver(old(reg.inFocus), old(reg.lastFocus), old(reg.top), old(reg.Docs), old(reg.shellOf[srcId]),
                  Successor(old(reg.shellOf), old(reg.top), srcId, None, tabs))
    ensures old(reg.Count(reg.shellOf[srcId])) >= 2 && old(reg.IsTopDocument(srcId)) ==>
      reg.ShowsOther(old(reg.shellOf[srcId]), srcId)
  {
    var n := reg.NDocuments(srcId);
    if n >= 2 {
      RaiseSuccessor(reg, srcId, None, tabs, n);
    }
    AddMovedClone(reg, srcId, toWindow, cloneId);
  }

  /**
   * CreateDocument in the host's shell, cloneDocument's ShowLineNumbers
   * with the original's setting, and the relink after the original.
   */
  method AddMovedClone(reg: WindowRegistry, srcId: DocId, toWindow: DocId, cloneId: DocId)
    requires reg.Valid() && srcId in reg.Docs && toWindow in reg.Docs && cloneId !in reg.Docs
    modifies reg`head, reg`next, reg`Docs, reg`shellOf, reg`flags
    ensures reg.Valid() && reg.Docs == InsertAfter(old(reg.Docs), srcId, cloneId)
    ensures reg.shellOf == old(reg.shellOf)[cloneId := old(reg.shellOf)[toWindow]]
    ensures HostFlags(reg.flags, old(reg.flags), old(reg.Docs), old(reg.shellOf), cloneId, toWindow, Get(old(reg.flags)[srcId], LineNumbers))
  {
    var lineNumbers := Get(reg.flags[srcId], LineNumbers);
    JoinHost(reg, toWindow, cloneId, lineNumbers);
    reg.RelinkAfter(srcId, cloneId);
  }

  /**
   * A new document in the host's shell, with the host's settings, then
   * given a line numbers setting that its whole shell takes when it is new.
   */
  method JoinHost(reg: WindowRegistry, toWindow: DocId, cloneId: DocId, lineNumbers: bool)
    requires reg.Valid() && toWindow in reg.Docs && cloneId !in reg.Docs
    modifies reg`head, reg`next, reg`Docs, reg`shellOf, reg`flags
    ensures reg.Valid() && reg.Docs == [cloneId] + old(reg.Docs) && reg.head == Some(cloneId)
    ensures reg.shellOf == old(reg.shellOf)[cloneId := old(reg.shellOf)[toWindow]]
    ensures HostFlags(reg.flags, old(reg.flags), old(reg.Docs), old(reg.shellOf), cloneId, toWindow, lineNumbers)
  {
    reg.CreateDocument(toWindow, cloneId);
    reg.ShowLineNumbers(cloneId, lineNumbers);
  }

  /**
   * The registry after a move: the clone follows the original in the list
   * and belongs to the host's shell.  It has the host's settings, with the
   * original's line numbers setting; when that differs from the host's,
   * every document of the host's shell takes it too.  Nothing else changes.
   */
  ghost predicate MovedInRegistry(reg: WindowRegistry, srcId: DocId, cloneId: DocId, toWindow: DocId,
                                  docs0: seq<DocId>, shells0: map<DocId, ShellId>, flags0: map<DocId, ShellFlags>)
    reads reg
  {
    && srcId in docs0 && srcId in flags0 && toWindow in shells0 && toWindow in flags0
    && reg.Valid() && reg.Docs == InsertAfter(docs0, srcId, cloneId)
    && reg.shellOf == shells0[cloneId := shells0[toWindow]]
    && HostFlags(reg.flags, flags0, docs0, shells0, cloneId, toWindow, Get(flags0[srcId], LineNumbers))
  }

  /**
   * The settings after a document joins the shell of `toWindow` and is
   * given a line numbers setting: it has the host's settings with that
   * one changed; when the host's differed, every document of the shell
   * takes it too.  Nothing else changes.
   */
  ghost predicate HostFlags(flags: map<DocId, ShellFlags>, flags0: map<DocId, ShellFlags>, docs0: seq<DocId>,
                            shells0: map<DocId, ShellId>, cloneId: DocId, toWindow: DocId, lineNumbers: bool)
  {
    && toWindow in flags0 && toWindow in shells0
    && flags.Keys == flags0.Keys + {cloneId}
    && flags[cloneId] == With(flags0[toWindow], LineNumbers, lineNumbers)
    && forall x :: x in flags && x != cloneId ==>
         flags[x] == if Get(flags0[toWindow], LineNumbers) != lineNumbers
                         && x in docs0 && x in shells0 && shells0[x] == shells0[toWindow]
                      then With(flags0[x], LineNumbers, lineNumbers) else flags0[x]
  }
}
