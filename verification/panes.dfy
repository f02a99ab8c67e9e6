/**
 * Split-pane bookkeeping.  A document shows its buffer in a primary text
 * area plus up to MAX_PANES split panes.  Each pane has a cursor position,
 * a height, a top line and a horizontal scroll offset; SplitPane and
 * ClosePane keep these in four parallel arrays of MAX_PANES + 1 slots,
 * indexed by pane (0 is the primary text area).
 */
module Panes {
  import opened Ids
  import opened Seqs

  /**
   * Most split panes a document may have besides its primary text area.
   * Defined in nedit.h, which is not part of this model; the proofs hold
   * for any value of it.
   */
  const MAX_PANES: nat := 6

  /** Division as C does it on `int`/`short`: truncation toward zero. */
  function CDiv(a: int, b: int): int
    requires b > 0
  {
    if a >= 0 then a / b else -((-a) / b)
  }

  /**
   * Pane state after splitting pane `focus`: the new pane sits directly
   * after it and starts as a copy of it; later panes move up one slot.
   */
  function SplitAt(s: seq<int>, focus: nat): (r: seq<int>)
    requires focus < |s|
    ensures |r| == |s| + 1
    ensures forall k :: 0 <= k <= focus ==> r[k] == s[k]
    ensures forall k :: focus < k < |r| ==> r[k] == s[k - 1]
  {
    s[..focus + 1] + [s[focus]] + s[focus + 1..]
  }

  /** Heights after a split: the focus pane's height is shared out between it and the new pane. */
  function SplitHeights(s: seq<int>, focus: nat): (r: seq<int>)
    requires focus < |s|
    ensures |r| == |s| + 1
    ensures r[focus] == r[focus + 1] == CDiv(s[focus], 2)
    ensures forall k :: 0 <= k < focus ==> r[k] == s[k]
    ensures forall k :: focus + 1 < k < |r| ==> r[k] == s[k - 1]
  {
    SplitAt(s, focus)[focus := CDiv(s[focus], 2)][focus + 1 := CDiv(s[focus], 2)]
  }

  /** Pane state after closing pane `focus`: its slot is taken by its successor and so on. */
  function RemoveAt(s: seq<int>, focus: nat): (r: seq<int>)
    requires focus < |s|
    ensures |r| == |s| - 1
    ensures forall k :: 0 <= k < focus ==> r[k] == s[k]
    ensures forall k :: focus <= k < |r| ==> r[k] == s[k + 1]
  {
    s[..focus] + s[focus + 1..]
  }

  /**
   * Closing the focus pane right after splitting it gives back the cursor
   * and scroll state the document had before the split.
   */
  lemma {:induction false} CloseUndoesSplit(s: seq<int>, focus: nat)
    requires focus < |s|
    ensures RemoveAt(SplitAt(s, focus), focus) == s
  {
    var r := RemoveAt(SplitAt(s, focus), focus);
    assert |r| == |s|;
    forall k | 0 <= k < |s| ensures r[k] == s[k] {
      if k < focus {
      } else if k == focus {
        assert r[k] == SplitAt(s, focus)[k + 1];
      } else {
        assert r[k] == SplitAt(s, focus)[k + 1];
      }
    }
  }

  /** Loop state of the split shift: slots above `i` (up to n) hold their lower neighbour's old value. */
  ghost predicate SplitShifted(a: seq<int>, o: seq<int>, i: int, n: int)
    requires |a| == |o| && 0 <= i <= n < |o|
  {
    && (forall k :: 0 <= k <= i ==> a[k] == o[k])
    && (forall k :: i < k <= n ==> a[k] == o[k - 1])
    && (forall k :: n < k < |a| ==> a[k] == o[k])
  }

  /** Loop state of the close shift: slots from `focus` below `i` hold their upper neighbour's old value. */
  ghost predicate CloseShifted(a: seq<int>, o: seq<int>, focus: int, i: int)
    requires |a| == |o| && 0 <= focus <= i < |o|
  {
    && (forall k :: 0 <= k < focus ==> a[k] == o[k])
    && (forall k :: focus <= k < i ==> a[k] == o[k + 1])
    && (forall k :: i <= k < |a| ==> a[k] == o[k])
  }

  /**
   * One array's part of the shifting loop of SplitPane.  `nPanes` is the
   * pane count after the new pane was appended, so slots 0 .. nPanes - 1
   * hold the old panes; the slots above the focus pane move up by one.
   */
  method ShiftUp(a: array<int>, nPanes: nat, focusPane: nat)
    requires a.Length == MAX_PANES + 1
    requires focusPane < nPanes <= MAX_PANES
    modifies a
    ensures a[..nPanes + 1] == SplitAt(old(a[..nPanes]), focusPane)
    ensures a[nPanes + 1..] == old(a[nPanes + 1..])
  {
    ghost var o := a[..];
    var i := nPanes;
    while i > focusPane
      invariant focusPane <= i <= nPanes
      invariant SplitShifted(a[..], o, i, nPanes)
    {
      a[i] := a[i - 1];
      i := i - 1;
    }
    assert a[..nPanes + 1] == SplitAt(o[..nPanes], focusPane);
  }

  /**
   * One array's part of the shifting loop of ClosePane.  `nPanes` is the
   * pane count after the last pane was removed, so slots 0 .. nPanes + 1
   * held the old panes; every slot from the focus pane on takes its upper
   * neighbour's state.  The read at i + 1 stays below MAX_PANES + 1.
   */
  method ShiftDown(a: array<int>, nPanes: nat, focusPane: nat)
    requires a.Length == MAX_PANES + 1
    requires focusPane <= nPanes + 1 <= MAX_PANES
    modifies a
    ensures a[..nPanes + 1] == RemoveAt(old(a[..nPanes + 2]), focusPane)
    ensures a[nPanes + 1..] == old(a[nPanes + 1..])
  {
    ghost var o := a[..];
    var i := focusPane;
    while i <= nPanes
      invariant focusPane <= i <= nPanes + 1
      invariant CloseShifted(a[..], o, focusPane, i)
    {
      a[i] := a[i + 1];
      i := i + 1;
    }
    assert a[..nPanes + 1] == RemoveAt(o[..nPanes + 2], focusPane);
  }

  /**
   * SplitPane's adjustment of the four pane arrays: the state of the panes
   * above the focus pane moves up one slot, the new pane after the focus
   * pane starts as a copy of it, and the focus pane's height is halved
   * into both.  `nPanes` is the pane count after the new pane was appended.
   */
  method SplitShiftAll(insertPositions: array<int>, paneHeights: array<int>, topLines: array<int>,
                       horizOffsets: array<int>, nPanes: nat, focusPane: nat)
    requires insertPositions.Length == paneHeights.Length == topLines.Length == horizOffsets.Length == MAX_PANES + 1
    requires focusPane < nPanes <= MAX_PANES
    requires insertPositions != paneHeights && insertPositions != topLines && insertPositions != horizOffsets
    requires paneHeights != topLines && paneHeights != horizOffsets && topLines != horizOffsets
    modifies insertPositions, paneHeights, topLines, horizOffsets
    ensures insertPositions[..nPanes + 1] == SplitAt(old(insertPositions[..nPanes]), focusPane)
    ensures topLines[..nPanes + 1] == SplitAt(old(topLines[..nPanes]), focusPane)
    ensures horizOffsets[..nPanes + 1] == SplitAt(old(horizOffsets[..nPanes]), focusPane)
    ensures paneHeights[..nPanes + 1] == SplitHeights(old(paneHeights[..nPanes]), focusPane)
  {
    ShiftUp(insertPositions, nPanes, focusPane);
    ShiftUp(paneHeights, nPanes, focusPane);
    ShiftUp(topLines, nPanes, focusPane);
    ShiftUp(horizOffsets, nPanes, focusPane);
    ghost var shifted := paneHeights[..nPanes + 1];
    paneHeights[focusPane] := CDiv(paneHeights[focusPane], 2);
    paneHeights[focusPane + 1] := paneHeights[focusPane];
    assert paneHeights[..nPanes + 1] == shifted[focusPane := CDiv(shifted[focusPane], 2)][focusPane + 1 := CDiv(shifted[focusPane], 2)];
  }

  /**
   * ClosePane's adjustment of the four pane arrays: every pane from the
   * focus pane on takes its successor's state, so the focus pane appears
   * to be the one removed.  `nPanes` is the pane count after the removal.
   */
  method CloseShiftAll(insertPositions: array<int>, paneHeights: array<int>, topLines: array<int>,
                       horizOffsets: array<int>, nPanes: nat, focusPane: nat)
    requires insertPositions.Length == paneHeights.Length == topLines.Length == horizOffsets.Length == MAX_PANES + 1
    requires focusPane <= nPanes + 1 <= MAX_PANES
    requires insertPositions != paneHeights && insertPositions != topLines && insertPositions != horizOffsets
    requires paneHeights != topLines && paneHeights != horizOffsets && topLines != horizOffsets
    modifies insertPositions, paneHeights, topLines, horizOffsets
    ensures insertPositions[..nPanes + 1] == RemoveAt(old(insertPositions[..nPanes + 2]), focusPane)
    ensures topLines[..nPanes + 1] == RemoveAt(old(topLines[..nPanes + 2]), focusPane)
    ensures horizOffsets[..nPanes + 1] == RemoveAt(old(horizOffsets[..nPanes + 2]), focusPane)
    ensures paneHeights[..nPanes + 1] == RemoveAt(old(paneHeights[..nPanes + 2]), focusPane)
  {
    ShiftDown(insertPositions, nPanes, focusPane);
    ShiftDown(paneHeights, nPanes, focusPane);
    ShiftDown(topLines, nPanes, focusPane);
    ShiftDown(horizOffsets, nPanes, focusPane);
  }

  /** The smaller of two numbers. */
  function Min(a: nat, b: nat): nat
  {
    if a <= b then a else b
  }

  /** Sum of a sequence of heights. */
  function Sum(s: seq<int>): int
  {
    if s == [] then 0 else Sum(s[..|s| - 1]) + s[|s| - 1]
  }

  /**
   * The split-pane window of one document: its primary text area, its
   * split panes, the pane that last had keyboard focus, and the per-pane
   * cursor, height and scroll state.
   */
  class PaneSet {
    // The primary text area, split panes textPanes[0 .. nPanes - 1], and
    // the widget that last had keyboard focus.
    var textArea: WidgetId
    var textPanes: array<WidgetId>
    var nPanes: nat
    var lastFocus: WidgetId
    // Per-pane state by pane index (0 is the text area).
    var insertPositions: array<int>
    var paneHeights: array<int>
    var topLines: array<int>
    var horizOffsets: array<int>

    /** The pane widgets in pane-index order. */
    function Widgets(): (ws: seq<WidgetId>)
      reads this`textArea, this`textPanes, this`nPanes, textPanes
      requires nPanes <= textPanes.Length
      ensures |ws| == nPanes + 1 && ws[0] == textArea
    {
      [textArea] + textPanes[..nPanes]
    }

    ghost predicate Valid()
      reads this`textArea, this`textPanes, this`nPanes, this`lastFocus, textPanes
      reads this`insertPositions, this`paneHeights, this`topLines, this`horizOffsets
    {
      && textPanes.Length == MAX_PANES
      && insertPositions.Length == MAX_PANES + 1 && paneHeights.Length == MAX_PANES + 1
      && topLines.Length == MAX_PANES + 1 && horizOffsets.Length == MAX_PANES + 1
      && insertPositions != paneHeights && insertPositions != topLines && insertPositions != horizOffsets
      && paneHeights != topLines && paneHeights != horizOffsets && topLines != horizOffsets
      && nPanes <= MAX_PANES
      && Distinct(Widgets())
      && lastFocus in Widgets()
    }

    /** The per-pane state arrays. */
    ghost function PaneArrays(): set<array<int>>
      reads this`insertPositions, this`paneHeights, this`topLines, this`horizOffsets
    {
      {insertPositions, paneHeights, topLines, horizOffsets}
    }

    /** Index of the pane that last had keyboard focus. */
    ghost function FocusIndex(): (f: nat)
      reads this`textArea, this`textPanes, this`nPanes, this`lastFocus, textPanes
      reads this`insertPositions, this`paneHeights, this`topLines, this`horizOffsets
      requires Valid()
      ensures f <= nPanes
    {
      IndexOf(Widgets(), lastFocus)
    }

    constructor (text: WidgetId)
      ensures Valid()
      ensures fresh(textPanes) && fresh(insertPositions) && fresh(paneHeights) && fresh(topLines) && fresh(horizOffsets)
      ensures nPanes == 0 && textArea == text && lastFocus == text
    {
      textArea := text;
      textPanes := new WidgetId[MAX_PANES](_ => text);
      nPanes := 0;
      lastFocus := text;
      insertPositions := new int[MAX_PANES + 1];
      paneHeights := new int[MAX_PANES + 1];
      topLines := new int[MAX_PANES + 1];
      horizOffsets := new int[MAX_PANES + 1];
    }

    /** GetPaneByIndex: the widget of pane `paneIndex`, or none when the index is out of range. */
    function GetPaneByIndex(paneIndex: int): (w: Option<WidgetId>)
      reads this`textArea, this`textPanes, this`nPanes, this`lastFocus, textPanes
      reads this`insertPositions, this`paneHeights, this`topLines, this`horizOffsets
      requires Valid()
      ensures w.Some? <==> 0 <= paneIndex <= nPanes
      ensures w.Some? ==> w.value in Widgets() && IndexOf(Widgets(), w.value) == paneIndex
    {
      if 0 <= paneIndex <= nPanes then
        var w := if paneIndex == 0 then textArea else textPanes[paneIndex - 1];
        assert w == Widgets()[paneIndex];
        DistinctIndex(Widgets(), paneIndex);
        Some(w)
      else None
    }

    /**
     * WidgetToPaneIndex: the index of the pane whose widget is `w`, or 0
     * when `w` is none of these panes.  It undoes GetPaneByIndex.
     */
    method WidgetToPaneIndex(w: WidgetId) returns (paneIndex: nat)
      requires Valid()
      ensures paneIndex <= nPanes
      ensures w in Widgets() ==> paneIndex == IndexOf(Widgets(), w)
      ensures w !in Widgets() ==> paneIndex == 0
    {
      paneIndex := 0;
      var i := 0;
      while i <= nPanes
        invariant 0 <= i <= nPanes + 1
        invariant paneIndex <= nPanes
        invariant w in Widgets()[..i] ==> Widgets()[paneIndex] == w
        invariant w !in Widgets()[..i] ==> paneIndex == 0
      {
        var text := if i == 0 then textArea else textPanes[i - 1];
        assert text == Widgets()[i];
        assert Widgets()[..i + 1] == Widgets()[..i] + [text];
        if text == w {
          paneIndex := i;
        }
        i := i + 1;
      }
      assert Widgets()[..i] == Widgets();
      if w in Widgets() {
        DistinctIndex(Widgets(), paneIndex);
      }
    }

    /** The record loop of SplitPane: the sum of the current pane heights. */
    method TotalHeight() returns (total: int)
      requires Valid()
      ensures total == Sum(paneHeights[..nPanes + 1])
    {
      total := 0;
      var i := 0;
      while i <= nPanes
        invariant 0 <= i <= nPanes + 1
        invariant total == Sum(paneHeights[..i])
      {
        assert paneHeights[..i + 1][..i] == paneHeights[..i];
        total := total + paneHeights[i];
        i := i + 1;
      }
    }

    /** Add a new pane widget after the last one; focus stays on the same pane. */
    method AppendPane(newText: WidgetId)
      requires Valid() && nPanes < MAX_PANES && newText !in Widgets()
      modifies this`nPanes, textPanes
      ensures Valid()
      ensures nPanes == old(nPanes) + 1 && Widgets() == old(Widgets()) + [newText]
      ensures FocusIndex() == old(FocusIndex())
    {
      ghost var oldWidgets := Widgets();
      ghost var f := FocusIndex();
      textPanes[nPanes] := newText;
      nPanes := nPanes + 1;
      assert Widgets() == oldWidgets + [newText];
      assert Widgets()[f] == lastFocus;
      DistinctIndex(Widgets(), f);
    }

    /**
     * Forget the last pane widget.  Focus stays where it was unless it was
     * on the removed pane, in which case it moves to the new last pane.
     */
    method DropLastPane(focusPane: nat)
      requires Valid() && nPanes > 0 && focusPane == FocusIndex()
      modifies this`nPanes, this`lastFocus
      ensures Valid()
      ensures nPanes == old(nPanes) - 1 && Widgets() == old(Widgets())[..nPanes + 1]
      ensures FocusIndex() == Min(focusPane, nPanes)
    {
      ghost var oldWidgets := Widgets();
      nPanes := nPanes - 1;
      assert Widgets() == oldWidgets[..nPanes + 1];
      DistinctPrefix(oldWidgets, nPanes + 1);
      if nPanes == 0 {
        lastFocus := textArea;
      } else if focusPane > nPanes {
        lastFocus := textPanes[nPanes - 1];
        assert lastFocus == Widgets()[nPanes];
      } else {
        assert lastFocus == Widgets()[focusPane];
      }
      DistinctIndex(Widgets(), Min(focusPane, nPanes));
    }

    /**
     * SplitPane: unless the document already has MAX_PANES split panes,
     * append a new pane widget and shift the pane state so that the new
     * pane appears directly after the focus pane as a copy of it.  Focus
     * stays on the same pane.  The halved heights go to the paned window
     * first; then every pane's desired height is set to an equal share of
     * the old total.
     */
    method SplitPane(newText: WidgetId)
      requires Valid()
      requires newText !in Widgets()
      modifies this`nPanes, textPanes, insertPositions, paneHeights, topLines, horizOffsets
      ensures Valid()
      ensures old(nPanes) >= MAX_PANES ==>
        && nPanes == old(nPanes)
        && textPanes[..] == old(textPanes[..]) && insertPositions[..] == old(insertPositions[..])
        && paneHeights[..] == old(paneHeights[..]) && topLines[..] == old(topLines[..])
        && horizOffsets[..] == old(horizOffsets[..])
      ensures old(nPanes) < MAX_PANES ==>
        && nPanes == old(nPanes) + 1
        && Widgets() == old(Widgets()) + [newText]
        && FocusIndex() == old(FocusIndex())
      ensures old(nPanes) < MAX_PANES ==>
        && insertPositions[..nPanes + 1] == SplitAt(old(insertPositions[..nPanes + 1]), old(FocusIndex()))
        && topLines[..nPanes + 1] == SplitAt(old(topLines[..nPanes + 1]), old(FocusIndex()))
        && horizOffsets[..nPanes + 1] == SplitAt(old(horizOffsets[..nPanes + 1]), old(FocusIndex()))
      ensures old(nPanes) < MAX_PANES ==>
        forall k :: 0 <= k <= nPanes ==> paneHeights[k] == CDiv(Sum(old(paneHeights[..nPanes + 1])), nPanes + 1)
    {
      if nPanes >= MAX_PANES {
        return;
      }
      var totalHeight := TotalHeight();
      var focusPane := WidgetToPaneIndex(lastFocus);
      AppendPane(newText);
      SplitShiftAll(insertPositions, paneHeights, topLines, horizOffsets, nPanes, focusPane);
      FillPrefix(paneHeights, nPanes + 1, CDiv(totalHeight, nPanes + 1));
    }

    /**
     * ClosePane: unless there are no split panes, destroy the last pane
     * widget and shift the pane state down from the focus pane, so that
     * the focus pane appears to be the one removed.  Focus moves to the
     * new last pane when the focus pane was the last one.
     */
    method ClosePane()
      requires Valid()
      modifies this`nPanes, this`lastFocus, insertPositions, paneHeights, topLines, horizOffsets
      ensures Valid()
      ensures old(nPanes) == 0 ==>
        && nPanes == 0 && lastFocus == old(lastFocus)
        && insertPositions[..] == old(insertPositions[..]) && paneHeights[..] == old(paneHeights[..])
        && topLines[..] == old(topLines[..]) && horizOffsets[..] == old(horizOffsets[..])
      ensures old(nPanes) > 0 ==>
        && nPanes == old(nPanes) - 1
        && Widgets() == old(Widgets())[..nPanes + 1]
        && FocusIndex() == Min(old(FocusIndex()), nPanes)
      ensures old(nPanes) > 0 ==>
        && insertPositions[..nPanes + 1] == RemoveAt(old(insertPositions[..nPanes + 1]), old(FocusIndex()))
        && topLines[..nPanes + 1] == RemoveAt(old(topLines[..nPanes + 1]), old(FocusIndex()))
        && horizOffsets[..nPanes + 1] == RemoveAt(old(horizOffsets[..nPanes + 1]), old(FocusIndex()))
        && paneHeights[..nPanes + 1] == RemoveAt(old(paneHeights[..nPanes + 1]), old(FocusIndex()))
    {
      if nPanes <= 0 {
        return;
      }
      var focusPane := WidgetToPaneIndex(lastFocus);
      DropLastPane(focusPane);
      CloseShiftAll(insertPositions, paneHeights, topLines, horizOffsets, nPanes, focusPane);
    }

    /**
     * This document's panes mirror `org`'s: as many panes, the same focus
     * pane, the same cursor, top line and horizontal offset in every pane,
     * and, once the document is split, the same pane heights.
     */
    ghost predicate SamePanes(org: PaneSet)
      reads this`textArea, this`textPanes, this`nPanes, this`lastFocus, textPanes
      reads this`insertPositions, this`paneHeights, this`topLines, this`horizOffsets
      reads insertPositions, paneHeights, topLines, horizOffsets
      reads org, org.textPanes, org.insertPositions, org.paneHeights, org.topLines, org.horizOffsets
      requires Valid() && org.Valid()
    {
      && nPanes == org.nPanes && FocusIndex() == org.FocusIndex()
      && insertPositions[..nPanes + 1] == org.insertPositions[..nPanes + 1]
      && (nPanes > 0 ==> paneHeights[..nPanes + 1] == org.paneHeights[..nPanes + 1])
      && topLines[..nPanes + 1] == org.topLines[..nPanes + 1]
      && horizOffsets[..nPanes + 1] == org.horizOffsets[..nPanes + 1]
    }

    /**
     * The pane-creation loop of cloneTextPanes and its focus step: the new
     * pane widgets, with the focus on the pane at index focusPane.
     */
    method SetPaneWidgets(newPanes: seq<WidgetId>, focusPane: nat)
      requires Valid() && nPanes == 0
      requires |newPanes| <= MAX_PANES && Distinct([textArea] + newPanes) && focusPane <= |newPanes|
      modifies this`nPanes, this`lastFocus, textPanes
      ensures Valid() && Widgets() == [textArea] + newPanes && FocusIndex() == focusPane
    {
      nPanes := |newPanes|;
      var i := 0;
      while i < nPanes
        invariant 0 <= i <= nPanes
        invariant textPanes[..i] == newPanes[..i]
        modifies textPanes
      {
        textPanes[i] := newPanes[i];
        i := i + 1;
      }
      assert textPanes[..nPanes] == newPanes;
      lastFocus := if focusPane == 0 then textArea else textPanes[focusPane - 1];
      assert lastFocus == Widgets()[focusPane];
      DistinctIndex(Widgets(), focusPane);
    }

    /**
     * The restore loops of cloneTextPanes: once the panes and focus match
     * `org`'s, the cursor and scroll state of every pane is copied from
     * `org`; the heights are copied only when there are split panes, so an
     * unsplit copy keeps its own height.
     */
    method CopyPaneArrays(org: PaneSet)
      requires Valid() && org.Valid() && PaneArrays() !! org.PaneArrays()
      requires nPanes == org.nPanes && FocusIndex() == org.FocusIndex()
      modifies insertPositions, paneHeights, topLines, horizOffsets
      ensures SamePanes(org)
      ensures nPanes == 0 ==> paneHeights[..] == old(paneHeights[..])
    {
      CopyPrefix(insertPositions, org.insertPositions, nPanes + 1);
      CopyPrefix(topLines, org.topLines, nPanes + 1);
      CopyPrefix(horizOffsets, org.horizOffsets, nPanes + 1);
      if nPanes > 0 {
        CopyPrefix(paneHeights, org.paneHeights, nPanes + 1);
      }
    }

    /**
     * cloneTextPanes: give this pane set (which has no split panes yet) as
     * many panes as `org`, with the new widgets `newPanes`, the same
     * per-pane state and focus on the pane with the same index; an unsplit
     * copy keeps its own pane height.
     */
    method CloneTextPanes(org: PaneSet, newPanes: seq<WidgetId>)
      requires Valid() && org.Valid() && org != this
      requires nPanes == 0
      requires |newPanes| == org.nPanes && Distinct([textArea] + newPanes)
      requires textPanes != org.textPanes && PaneArrays() !! org.PaneArrays()
      modifies this`nPanes, this`lastFocus, textPanes, insertPositions, paneHeights, topLines, horizOffsets
      ensures Valid() && Widgets() == [textArea] + newPanes
      ensures SamePanes(org)
      ensures org.nPanes == 0 ==> paneHeights[..] == old(paneHeights[..])
    {
      var focusPane := org.WidgetToPaneIndex(org.lastFocus);
      SetPaneWidgets(newPanes, focusPane);
      CopyPaneArrays(org);
    }
  }

  /** Set the first n slots of a pane array to one value (SplitPane's equal heights). */
  method FillPrefix(a: array<int>, n: nat, v: int)
    requires n <= a.Length
    modifies a
    ensures forall k :: 0 <= k < n ==> a[k] == v
    ensures a[n..] == old(a[n..])
  {
    var i := 0;
    while i < n
      invariant 0 <= i <= n
      invariant forall k :: 0 <= k < i ==> a[k] == v
      invariant a[n..] == old(a[n..])
    {
      a[i] := v;
      i := i + 1;
    }
  }

  /** Copy the first n slots of one pane array into another (the restore loops of cloneTextPanes). */
  method CopyPrefix(dst: array<int>, src: array<int>, n: nat)
    requires dst != src && n <= dst.Length && n <= src.Length
    modifies dst
    ensures dst[..n] == src[..n]
    ensures dst[n..] == old(dst[n..])
  {
    var i := 0;
    while i < n
      invariant 0 <= i <= n
      invariant dst[..i] == src[..i]
      invariant dst[n..] == old(dst[n..])
    {
      dst[i] := src[i];
      i := i + 1;
    }
  }
}
