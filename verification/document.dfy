/**
 * One document's own state besides its panes: the modification callback
 * that decides whether an edit is journaled and counts towards autosave,
 * the drag callbacks that suspend journaling, and the field resets and
 * copies used when a document is closed or cloned.
 */
module Documents {
  import opened Ids
  import opened Panes
  import opened UndoLists
  import opened Seqs

  // The two autosave limits are defined in nedit.h, which is not part of this model;
  // the proofs hold for any values of them.

  /** Autosave after more than this many characters typed since the last backup. */
  const AUTOSAVE_CHAR_LIMIT: int := 30
  /** Autosave after more than this many editing operations since the last backup. */
  const AUTOSAVE_OP_LIMIT: int := 8

  /** The fields modifiedCB reads and writes. */
  datatype EditState = EditState(ignoreModify: bool, autoSave: bool, charCount: int, opCount: int,
                                 fileChanged: bool)

  /** A document's file and edit state, as one value. */
  datatype FileFields = FileFields(filename: string, path: string, buffer: string, fileChanged: bool,
                                   filenameSet: bool, autoSave: bool, autoSaveCharCount: int,
                                   autoSaveOpCount: int, nMarks: nat)

  /** What modifiedCB did besides updating the fields: journal the edit, write a backup. */
  datatype EditOutcome = EditOutcome(journaled: bool, backupWritten: bool)

  /** The counters are within their limits whenever autosave is on. */
  predicate CountersBounded(st: EditState)
  {
    st.autoSave ==> st.charCount <= AUTOSAVE_CHAR_LIMIT && st.opCount <= AUTOSAVE_OP_LIMIT
  }

  /**
   * modifiedCB's bookkeeping for one buffer change of nInserted inserted and
   * nDeleted deleted characters.  The undo engine counts the change as
   * `charsCounted` characters and `opsCounted` operations (how it counts is
   * not part of this model).
   */
  function EditGate(st: EditState, nInserted: int, nDeleted: int, charsCounted: nat, opsCounted: nat)
    : (r: (EditState, EditOutcome))
    // ignored edits and empty changes leave every field alone and record nothing
    ensures st.ignoreModify || (nInserted == 0 && nDeleted == 0) ==>
      r.0 == st && r.1 == EditOutcome(false, false)
    // every other change is journaled and marks the document modified
    ensures !st.ignoreModify && (nInserted != 0 || nDeleted != 0) ==>
      && r.1.journaled && r.0.fileChanged
      && r.0.ignoreModify == st.ignoreModify && r.0.autoSave == st.autoSave
    // a backup is written exactly when autosave is on and a counter passed its limit
    ensures r.1.backupWritten <==>
      && !st.ignoreModify && (nInserted != 0 || nDeleted != 0) && st.autoSave
      && (st.charCount + charsCounted > AUTOSAVE_CHAR_LIMIT || st.opCount + opsCounted > AUTOSAVE_OP_LIMIT)
    // a backup resets both counters; otherwise they only grow by what was counted
    ensures r.1.backupWritten ==> r.0.charCount == 0 && r.0.opCount == 0
    ensures r.1.journaled && !r.1.backupWritten ==>
      r.0.charCount == st.charCount + charsCounted && r.0.opCount == st.opCount + opsCounted
    // the counters never rest above their limits while autosave is on
    ensures CountersBounded(st) ==> CountersBounded(r.0)
  {
    if st.ignoreModify || (nDeleted == 0 && nInserted == 0) then
      (st, EditOutcome(false, false))
    else
      var c, o := st.charCount + charsCounted, st.opCount + opsCounted;
      var backup := st.autoSave && (c > AUTOSAVE_CHAR_LIMIT || o > AUTOSAVE_OP_LIMIT);
      var (c', o') := if backup then (0, 0) else (c, o);
      (st.(charCount := c', opCount := o', fileChanged := true), EditOutcome(true, backup))
  }

  class Document {
    const id: DocId

    // The document's text area and split panes.
    const panes: PaneSet

    // File and edit state.
    var filename: string
    var path: string
    var buffer: string
    var ignoreModify: bool
    var autoSave: bool
    var autoSaveCharCount: int
    var autoSaveOpCount: int
    var fileChanged: bool
    var filenameSet: bool
    var nMarks: nat
    var undo: seq<UndoInfo>
    var redo: seq<UndoInfo>

    /** The fields modifiedCB works on. */
    function EditFields(): EditState
      reads this`ignoreModify, this`autoSave, this`autoSaveCharCount, this`autoSaveOpCount, this`fileChanged
    {
      EditState(ignoreModify, autoSave, autoSaveCharCount, autoSaveOpCount, fileChanged)
    }

    /** The document's panes are well formed. */
    ghost predicate Valid()
      reads this, panes, panes.textPanes
    {
      panes.Valid()
    }

    constructor (docId: DocId, text: WidgetId, name: string, prefAutoSave: bool)
      ensures Valid() && id == docId && fresh(panes)
      ensures fresh(panes.textPanes) && fresh(panes.PaneArrays())
      ensures panes.nPanes == 0 && panes.textArea == text && panes.lastFocus == text
      ensures filename == name && buffer == ""
      ensures !ignoreModify && autoSave == prefAutoSave && autoSaveCharCount == 0 && autoSaveOpCount == 0
      ensures !fileChanged && !filenameSet && nMarks == 0 && undo == [] && redo == []
    {
      id := docId;
      panes := new PaneSet(text);
      filename := name;
      buffer := "";
      ignoreModify := false;
      autoSave := prefAutoSave;
      autoSaveCharCount := 0;
      autoSaveOpCount := 0;
      fileChanged := false;
      filenameSet := false;
      nMarks := 0;
      undo := [];
      redo := [];
    }

    /**
     * SetWindowModified: record whether the file has unsaved changes (the
     * title and tab refresh that accompany a change are display work).
     */
    method SetWindowModified(modified: bool)
      modifies this`fileChanged
      ensures fileChanged == modified
    {
      if !fileChanged && modified {
        fileChanged := true;
      } else if fileChanged && !modified {
        fileChanged := false;
      }
    }

    /**
     * modifiedCB: the buffer's modification callback.  Unless modifications
     * are being ignored or nothing was inserted or deleted, the change goes
     * to the undo engine (which also counts it for autosave), a backup is
     * written when a counter passed its limit, and the file is marked
     * modified.
     */
    method ModifiedCB(nInserted: int, nDeleted: int, charsCounted: nat, opsCounted: nat)
      returns (outcome: EditOutcome)
      modifies this`autoSaveCharCount, this`autoSaveOpCount, this`fileChanged
      ensures (EditFields(), outcome) == EditGate(old(EditFields()), nInserted, nDeleted, charsCounted, opsCounted)
    {
      if ignoreModify || (nDeleted == 0 && nInserted == 0) {
        return EditOutcome(false, false);
      }
      // SaveUndoInformation counts the change for autosave
      autoSaveCharCount := autoSaveCharCount + charsCounted;
      autoSaveOpCount := autoSaveOpCount + opsCounted;
      var backup := false;
      if autoSave && (autoSaveCharCount > AUTOSAVE_CHAR_LIMIT || autoSaveOpCount > AUTOSAVE_OP_LIMIT) {
        backup := true;
        autoSaveCharCount := 0;
        autoSaveOpCount := 0;
      }
      SetWindowModified(true);
      outcome := EditOutcome(true, backup);
    }

    /** dragStartCB: the intermediate steps of a drag are not journaled. */
    method DragStartCB()
      modifies this`ignoreModify
      ensures ignoreModify
    {
      ignoreModify := true;
    }

    /**
     * dragEndCB: journaling resumes; a cancelled drag (nothing inserted)
     * records nothing, otherwise the whole drag is passed to modifiedCB as
     * one change.
     */
    method DragEndCB(nCharsInserted: int, nCharsDeleted: int, charsCounted: nat, opsCounted: nat)
      returns (outcome: EditOutcome)
      modifies this`ignoreModify, this`autoSaveCharCount, this`autoSaveOpCount, this`fileChanged
      ensures !ignoreModify
      ensures nCharsInserted == 0 ==> outcome == EditOutcome(false, false) && EditFields() == old(EditFields()).(ignoreModify := false)
      ensures nCharsInserted != 0 ==>
        (EditFields(), outcome) == EditGate(old(EditFields()).(ignoreModify := false), nCharsInserted, nCharsDeleted, charsCounted, opsCounted)
    {
      ignoreModify := false;
      if nCharsInserted == 0 {
        return EditOutcome(false, false);
      }
      outcome := ModifiedCB(nCharsInserted, nCharsDeleted, charsCounted, opsCounted);
    }

    /**
     * Replace the whole buffer without journaling it: the modification
     * callback runs while ignoreModify is set, so nothing is recorded, the
     * counters are untouched and the modified flag is not set.
     */
    method SetAllUnjournaled(text: string)
      modifies this`buffer, this`ignoreModify, this`autoSaveCharCount, this`autoSaveOpCount, this`fileChanged
      ensures buffer == text && !ignoreModify
      ensures autoSaveCharCount == old(autoSaveCharCount) && autoSaveOpCount == old(autoSaveOpCount)
      ensures fileChanged == old(fileChanged)
    {
      ignoreModify := true;
      var deleted := |buffer|;
      buffer := text;
      var outcome := ModifiedCB(|text|, deleted, 0, 0);
      assert !outcome.journaled;
      ignoreModify := false;
    }

    /**
     * The reset CloseWindow applies to a document it keeps open: it
     * becomes an empty, unmodified "Untitled" document with no bookmarks
     * and no undo or redo history.
     */
    method ResetToUntitled(untitledName: string)
      modifies this`filename, this`path, this`buffer, this`ignoreModify, this`autoSaveCharCount,
               this`autoSaveOpCount, this`fileChanged, this`filenameSet, this`nMarks, this`undo, this`redo
      ensures filename == untitledName && path == "" && buffer == "" && !ignoreModify
      ensures nMarks == 0 && !filenameSet && !fileChanged && undo == [] && redo == []
      ensures autoSaveCharCount == old(autoSaveCharCount) && autoSaveOpCount == old(autoSaveOpCount)
    {
      filename := untitledName;
      path := "";
      SetAllUnjournaled("");
      nMarks := 0;
      filenameSet := false;
      fileChanged := false;
      undo := [];
      redo := [];
    }

    /** The file and edit state cloneDocument carries over to a clone. */
    function FileState(): (st: FileFields)
      reads this`filename, this`path, this`buffer, this`fileChanged, this`filenameSet, this`autoSave,
            this`autoSaveCharCount, this`autoSaveOpCount, this`nMarks
    {
      FileFields(filename, path, buffer, fileChanged, filenameSet, autoSave,
                 autoSaveCharCount, autoSaveOpCount, nMarks)
    }

    /** The file state cloneDocument copies field by field. */
    method CopyFileFields(org: Document)
      requires org != this
      modifies this`filename, this`path, this`fileChanged, this`filenameSet, this`autoSave,
               this`autoSaveCharCount, this`autoSaveOpCount
      ensures filename == org.filename && path == org.path && fileChanged == org.fileChanged
      ensures filenameSet == org.filenameSet && autoSave == org.autoSave
      ensures autoSaveCharCount == org.autoSaveCharCount && autoSaveOpCount == org.autoSaveOpCount
    {
      filename := org.filename;
      path := org.path;
      filenameSet := org.filenameSet;
      fileChanged := org.fileChanged;
      autoSaveCharCount := org.autoSaveCharCount;
      autoSaveOpCount := org.autoSaveOpCount;
      autoSave := org.autoSave;
    }

    /** cloneUndoItems applied to both histories, and the bookmark count. */
    method CloneHistory(org: Document)
      requires org != this
      modifies this`undo, this`redo, this`nMarks
      ensures IsCopyOf(undo, org.undo) && IsCopyOf(redo, org.redo)
      ensures forall u :: u in undo || u in redo ==> fresh(u)
      ensures nMarks == org.nMarks
    {
      undo := CloneUndoItems(org.undo);
      redo := CloneUndoItems(org.redo);
      nMarks := org.nMarks;
    }

    /**
     * The document state cloneDocument copies besides the panes: file name
     * and path, the buffer (without journaling it), the file and autosave
     * state, independent copies of the undo and redo lists, and the number
     * of bookmarks.
     */
    method CopyDocumentState(org: Document)
      requires org != this
      modifies this`filename, this`path, this`buffer, this`ignoreModify, this`autoSaveCharCount,
               this`autoSaveOpCount, this`fileChanged, this`filenameSet, this`autoSave,
               this`undo, this`redo, this`nMarks
      ensures FileState() == org.FileState() && !ignoreModify
      ensures IsCopyOf(undo, org.undo) && IsCopyOf(redo, org.redo)
      ensures forall u :: u in undo || u in redo ==> fresh(u)
    {
      CopyFileFields(org);
      SetAllUnjournaled(org.buffer);
      CloneHistory(org);
    }

    /**
     * The part of cloneDocument that copies one document's own state into
     * this freshly created one: file and edit state, the buffer, the text
     * panes, independent copies of the undo and redo lists, and the number
     * of bookmarks.
     */
    method CloneFrom(org: Document, newPanes: seq<WidgetId>)
      requires org != this && panes != org.panes && panes.Valid() && org.panes.Valid()
      requires panes.nPanes == 0
      requires |newPanes| == org.panes.nPanes && Distinct([panes.textArea] + newPanes)
      requires panes.textPanes != org.panes.textPanes && panes.PaneArrays() !! org.panes.PaneArrays()
      modifies this, panes`nPanes, panes`lastFocus, panes.textPanes
      modifies panes.insertPositions, panes.paneHeights, panes.topLines, panes.horizOffsets
      ensures panes.Valid() && panes.textArea == old(panes.textArea)
      ensures panes.Widgets() == [panes.textArea] + newPanes && panes.SamePanes(org.panes)
      ensures org.panes.nPanes == 0 ==> panes.paneHeights[..] == old(panes.paneHeights[..])
      ensures FileState() == org.FileState() && !ignoreModify
      ensures IsCopyOf(undo, org.undo) && IsCopyOf(redo, org.redo)
      ensures forall u :: u in undo || u in redo ==> fresh(u)
    {
      panes.CloneTextPanes(org.panes, newPanes);
      CopyDocumentState(org);
    }
  }

}
