/**
 * Undo and redo lists as lists of separately allocated records.  How the
 * undo engine fills and replays a record (UndoInfo.h and the recording
 * code) is not part of this model; a record's contents are one opaque value
 * here, and only copying and clearing whole lists is modelled.
 */
module UndoLists {

  /** The fields of one undo record, as a single value that a copy duplicates. */
  type UndoContents = seq<int>

  /** One heap-allocated undo record. */
  class UndoInfo {
    var contents: UndoContents

    /** The copy constructor `new UndoInfo(*undo)`. */
    constructor Copy(other: UndoInfo)
      ensures contents == other.contents
    {
      contents := other.contents;
    }
  }

  /** Two lists hold records with the same contents, in the same order. */
  ghost predicate SameContents(a: seq<UndoInfo>, b: seq<UndoInfo>)
    reads a, b
  {
    |a| == |b| && forall i :: 0 <= i < |a| ==> a[i].contents == b[i].contents
  }

  /** `copy` holds the same contents as `orig`, each in a record of its own. */
  ghost predicate IsCopyOf(copy: seq<UndoInfo>, orig: seq<UndoInfo>)
    reads copy, orig
  {
    && SameContents(copy, orig)
    && forall i, j :: 0 <= i < j < |copy| ==> copy[i] != copy[j]
  }

  /**
   * cloneUndoItems: a new list whose records are fresh copies of the
   * original's, in the same order.  No record is shared with the original,
   * and no two records of the copy are the same object, so changing either
   * list's records afterwards cannot affect the other.
   */
  method CloneUndoItems(orgList: seq<UndoInfo>) returns (list: seq<UndoInfo>)
    ensures IsCopyOf(list, orgList)
    ensures forall u :: u in list ==> fresh(u)
  {
    list := [];
    var k := 0;
    while k < |orgList|
      invariant 0 <= k <= |orgList|
      invariant |list| == k
      invariant forall i :: 0 <= i < k ==> list[i].contents == orgList[i].contents
      invariant forall u :: u in list ==> fresh(u)
      invariant forall i, j :: 0 <= i < j < |list| ==> list[i] != list[j]
    {
      var copy := new UndoInfo.Copy(orgList[k]);
      list := list + [copy];
      k := k + 1;
    }
  }
}
