/**
 * Tab navigation: which document comes next or previous in tab order.
 * The tab bar's order is toolkit state, so the tabs arrive as a sequence
 * of the documents they belong to.
 */
module TabNavigation {
  import opened Ids

  /**
   * Index arithmetic of getNextTabWindow: step `direction` from `tabPos`
   * among `nBuf` tabs.  Past the end, wrap to the first tab or clamp to the
   * second from the right; before the start, wrap to the last tab or clamp
   * to the second from the left.  With fewer than two documents there is
   * no next tab.
   */
  function NextTabPos(tabPos: int, direction: int, nBuf: int, wrap: bool): (r: Option<int>)
    ensures r.None? <==> nBuf <= 1
    ensures r.Some? ==> 0 <= r.value < nBuf
  {
    if nBuf <= 1 then None
    else
      var nextPos := tabPos + direction;
      if nextPos >= nBuf then Some(if wrap then 0 else nBuf - 2)
      else if nextPos < 0 then Some(if wrap then nBuf - 1 else 1)
      else Some(nextPos)
  }

  /** With wrapping, a single step forward or back is a step round a cycle of nBuf tabs. */
  lemma WrapIsCyclic(tabPos: int, direction: int, nBuf: int)
    requires 2 <= nBuf && 0 <= tabPos < nBuf
    requires direction == 1 || direction == -1
    ensures NextTabPos(tabPos, direction, nBuf, true) == Some((tabPos + direction) % nBuf)
  {
    if tabPos + direction == nBuf {
      assert (tabPos + direction) % nBuf == 0;
    } else if tabPos + direction < 0 {
      assert (tabPos + direction) % nBuf == nBuf - 1;
    } else {
      assert (tabPos + direction) % nBuf == tabPos + direction;
    }
  }

  /** With wrapping, "previous" undoes "next" and "next" undoes "previous". */
  lemma WrapStepsAreInverse(tabPos: int, nBuf: int)
    requires 2 <= nBuf && 0 <= tabPos < nBuf
    ensures NextTabPos(NextTabPos(tabPos, 1, nBuf, true).value, -1, nBuf, true) == Some(tabPos)
    ensures NextTabPos(NextTabPos(tabPos, -1, nBuf, true).value, 1, nBuf, true) == Some(tabPos)
  {
  }

  /**
   * A single step, with or without wrapping, never lands on the tab it
   * started from: the document being closed or detached is always left.
   */
  lemma StepNeverStays(tabPos: int, direction: int, nBuf: int, wrap: bool)
    requires 2 <= nBuf && 0 <= tabPos < nBuf
    requires direction == 1 || direction == -1
    ensures NextTabPos(tabPos, direction, nBuf, wrap) != Some(tabPos)
  {
  }

  /** Without wrapping, the ends clamp to the neighbour of the end tab. */
  lemma ClampAtEnds(nBuf: int)
    requires 2 <= nBuf
    ensures NextTabPos(nBuf - 1, 1, nBuf, false) == Some(nBuf - 2)
    ensures NextTabPos(0, -1, nBuf, false) == Some(1)
    ensures NextTabPos(nBuf - 1, 1, nBuf, true) == Some(0)
    ensures NextTabPos(0, -1, nBuf, true) == Some(nBuf - 1)
  {
  }

  /**
   * Position of `tab` in `tabs`: its first occurrence, or 0 when it is not
   * there (the search in getNextTabWindow starts from 0 and keeps it).
   */
  function TabPosition(tab: DocId, tabs: seq<DocId>): (p: nat)
    ensures tab in tabs ==> p < |tabs| && tabs[p] == tab && tab !in tabs[..p]
    ensures tab !in tabs ==> p == 0
  {
    if tabs == [] || tabs[0] == tab then 0
    else if tab in tabs[1..] then
      assert tabs == [tabs[0]] + tabs[1..];
      var p := 1 + TabPosition(tab, tabs[1..]);
      assert tabs[..p] == [tabs[0]] + tabs[1..][..p - 1];
      p
    else 0
  }

  /**
   * getNextTabWindow: the document `direction` tabs away from `self` among
   * `tabs`, which lists the nBuf tabs of this window (or of all windows).
   * The source indexes its tab array with an index below nBuf, so it needs
   * the tab list to hold nBuf tabs whenever there is more than one.
   */
  method GetNextTabWindow(self: DocId, tabs: seq<DocId>, nBuf: int, direction: int, wrap: bool)
    returns (win: Option<DocId>)
    requires nBuf <= 1 || |tabs| == nBuf
    ensures win.None? <==> nBuf <= 1
    ensures win.Some? ==> win.value in tabs
    ensures win.Some? ==>
      win.value == tabs[NextTabPos(TabPosition(self, tabs), direction, nBuf, wrap).value]
  {
    if nBuf <= 1 {
      return None;
    }
    var tabPos := 0;
    var n := 0;
    while n < |tabs|
      invariant 0 <= n <= |tabs|
      invariant self !in tabs[..n]
      invariant tabPos == 0
    {
      if tabs[n] == self {
        tabPos := n;
        break;
      }
      n := n + 1;
    }
    assert n == |tabs| ==> tabs[..n] == tabs;
    assert tabPos == TabPosition(self, tabs);
    var nextPos := tabPos + direction;
    if nextPos >= nBuf {
      if wrap {
        nextPos := 0;
      } else {
        nextPos := nBuf - 2;
      }
    } else if nextPos < 0 {
      if wrap {
        nextPos := nBuf - 1;
      } else {
        nextPos := 1;
      }
    }
    win := Some(tabs[nextPos]);
  }
}
