/**
 * The editor's global document registry: WindowList, the singly linked
 * list of every open document threaded through the documents' `next`
 * fields; the shell window each document is shown in and the shell-level
 * display settings each document keeps a copy of; the focus history
 * (inFocusDocument and lastFocusDocument); and the document each shell
 * currently shows on top.
 */
module Registry {
  import opened Ids
  import opened Seqs

  /** The shell-level display settings each document keeps its own copy of. */
  datatype ShellFlags = ShellFlags(iSearchLine: bool, statsLine: bool, lineNumbers: bool)

  /** One of the shell-level settings. */
  datatype Setting = ISearchLine | StatsLine | LineNumbers

  function Get(f: ShellFlags, s: Setting): bool
  {
    match s
    case ISearchLine => f.iSearchLine
    case StatsLine => f.statsLine
    case LineNumbers => f.lineNumbers
  }

  /** The settings with one of them changed. */
  function With(f: ShellFlags, s: Setting, v: bool): (r: ShellFlags)
    ensures Get(r, s) == v
    ensures forall t :: t != s ==> Get(r, t) == Get(f, t)
  {
    match s
    case ISearchLine => f.(iSearchLine := v)
    case StatsLine => f.(statsLine := v)
    case LineNumbers => f.(lineNumbers := v)
  }

  // ---------------------------------------------------------------------
  // The document order as a sequence, and the edits the list code makes
  // to it.

  /** The list after unlinking the first occurrence of d (unchanged when d is absent). */
  function Without(s: seq<DocId>, d: DocId): (r: seq<DocId>)
    ensures d in s ==> |r| == |s| - 1
    ensures d !in s ==> r == s
  {
    if d in s then s[..IndexOf(s, d)] + s[IndexOf(s, d) + 1..] else s
  }

  /**
   * Every element but d, in their original order: the reference
   * definition of "remove d and keep the relative order of the others".
   */
  function Erase(s: seq<DocId>, d: DocId): (r: seq<DocId>)
    ensures forall x :: x in r <==> x in s && x != d
    ensures Distinct(s) ==> Distinct(r)
  {
    if s == [] then []
    else
      assert Distinct(s) ==> Distinct(s[1..]) && s[0] !in s[1..] by {
        forall k | 0 <= k < |s| - 1 ensures s[1..][k] == s[k + 1] { }
      }
      if s[0] == d then Erase(s[1..], d)
      else [s[0]] + Erase(s[1..], d)
  }

  /** The list with x linked in directly after (the first occurrence of) src. */
  function InsertAfter(s: seq<DocId>, src: DocId, x: DocId): (r: seq<DocId>)
    requires src in s
    ensures |r| == |s| + 1
    ensures forall y :: y in r <==> y in s || y == x
  {
    if s[0] == src then [src, x] + s[1..]
    else
      assert src in s[1..] by { assert s == [s[0]] + s[1..]; }
      [s[0]] + InsertAfter(s[1..], src, x)
  }

  /** InsertAfter cuts the list right after src's position and puts x in the gap. */
  lemma {:induction false} InsertAfterSplit(s: seq<DocId>, src: DocId, x: DocId)
    requires src in s
    ensures InsertAfter(s, src, x) == s[..IndexOf(s, src) + 1] + [x] + s[IndexOf(s, src) + 1..]
  {
    if s[0] != src {
      assert src in s[1..] by { assert s == [s[0]] + s[1..]; }
      InsertAfterSplit(s[1..], src, x);
      var i := IndexOf(s[1..], src);
      assert [s[0]] + s[1..][..i + 1] == s[..i + 2];
      assert s[1..][i + 1..] == s[i + 2..];
    }
  }

  /** The list with src replaced, in its place, by x. */
  function Replace(s: seq<DocId>, src: DocId, x: DocId): (r: seq<DocId>)
    requires src in s
    ensures |r| == |s| && r[IndexOf(s, src)] == x
    ensures forall k :: 0 <= k < |s| && k != IndexOf(s, src) ==> r[k] == s[k]
  {
    var i := IndexOf(s, src);
    s[..i] + [x] + s[i + 1..]
  }

  /** Number of documents of `docs` shown in shell `sh`. */
  function CountShell(docs: seq<DocId>, shellOf: map<DocId, ShellId>, sh: ShellId): (n: nat)
    requires forall x :: x in docs ==> x in shellOf
    ensures n <= |docs|
  {
    if docs == [] then 0
    else
      var last := docs[|docs| - 1];
      assert forall x :: x in docs[..|docs| - 1] ==> x in docs;
      CountShell(docs[..|docs| - 1], shellOf, sh) + (if shellOf[last] == sh then 1 else 0)
  }

  /** A shell is counted empty exactly when none of the documents is shown in it. */
  lemma {:induction false} CountZero(docs: seq<DocId>, shellOf: map<DocId, ShellId>, sh: ShellId)
    requires forall x :: x in docs ==> x in shellOf
    ensures CountShell(docs, shellOf, sh) == 0 <==> forall x :: x in docs ==> shellOf[x] != sh
  {
    if docs != [] {
      var init := docs[..|docs| - 1];
      assert forall x :: x in docs ==> x in init || x == docs[|docs| - 1];
      CountZero(init, shellOf, sh);
    }
  }

  /** Erasing an element that is not there changes nothing. */
  lemma {:induction false} EraseAbsent(s: seq<DocId>, d: DocId)
    requires d !in s
    ensures Erase(s, d) == s
  {
    if s != [] {
      EraseAbsent(s[1..], d);
      assert s == [s[0]] + s[1..];
    }
  }

  /**
   * removeFromWindowList keeps the order of the other documents: in a list
   * without repeats, unlinking d is the same as erasing it.
   */
  lemma {:induction false} WithoutIsErase(s: seq<DocId>, d: DocId)
    requires Distinct(s)
    ensures Without(s, d) == Erase(s, d)
  {
    if d !in s {
      EraseAbsent(s, d);
    } else if s[0] == d {
      assert d !in s[1..] by {
        forall k | 0 <= k < |s[1..]| ensures s[1..][k] != d {
          assert s[1..][k] == s[k + 1];
        }
      }
      EraseAbsent(s[1..], d);
    } else {
      var t := s[1..];
      assert Distinct(t) by {
        forall i, j | 0 <= i < j < |t| ensures t[i] != t[j] {
          assert t[i] == s[i + 1] && t[j] == s[j + 1];
        }
      }
      WithoutIsErase(t, d);
      var j := IndexOf(t, d);
      assert IndexOf(s, d) == j + 1;
      assert s[..j + 1] == [s[0]] + t[..j];
      assert s[j + 2..] == t[j + 1..];
    }
  }

  /** Unlinking d keeps every other element. */
  lemma WithoutKeepsOthers(s: seq<DocId>, d: DocId, x: DocId)
    requires x in s && x != d
    ensures x in Without(s, d)
  {
    if d in s {
      var i := IndexOf(s, d);
      var k :| 0 <= k < |s| && s[k] == x;
      if k < i {
        assert s[..i][k] == x;
      } else {
        assert s[i + 1..][k - i - 1] == x;
      }
    }
  }

  /** Counting over a concatenation adds up. */
  lemma {:induction false} CountConcat(a: seq<DocId>, b: seq<DocId>, shellOf: map<DocId, ShellId>, sh: ShellId)
    requires forall x :: x in a + b ==> x in shellOf
    ensures CountShell(a + b, shellOf, sh) == CountShell(a, shellOf, sh) + CountShell(b, shellOf, sh)
  {
    if b == [] {
      assert a + b == a;
    } else {
      var b' := b[..|b| - 1];
      assert (a + b)[..|a + b| - 1] == a + b';
      CountConcat(a, b', shellOf, sh);
    }
  }

  /** Unlinking a document takes it out of its shell's count and of no other. */
  lemma CountWithout(docs: seq<DocId>, d: DocId, shellOf: map<DocId, ShellId>, sh: ShellId)
    requires d in docs && forall x :: x in docs ==> x in shellOf
    ensures CountShell(Without(docs, d), shellOf, sh) + (if shellOf[d] == sh then 1 else 0)
         == CountShell(docs, shellOf, sh)
  {
    var i := IndexOf(docs, d);
    var a, b := docs[..i], docs[i + 1..];
    assert docs == a + [d] + b;
    CountConcat(a, b, shellOf, sh);
    CountConcat(a, [d], shellOf, sh);
    CountConcat(a + [d], b, shellOf, sh);
    assert CountShell([d], shellOf, sh) == if shellOf[d] == sh then 1 else 0 by {
      assert [d][..0] == [];
    }
  }

  /** A new document at the head of the list joins its shell's count. */
  lemma CountAddHead(docs: seq<DocId>, d: DocId, shellOf: map<DocId, ShellId>, sh: ShellId)
    requires d in shellOf && forall x :: x in docs ==> x in shellOf
    ensures CountShell([d] + docs, shellOf, sh)
         == CountShell(docs, shellOf, sh) + (if shellOf[d] == sh then 1 else 0)
  {
    CountConcat([d], docs, shellOf, sh);
    assert CountShell([d], shellOf, sh) == if shellOf[d] == sh then 1 else 0 by {
      assert [d][..0] == [];
    }
  }

  /**
   * Detach and Move link the clone in directly after the document it was
   * cloned from and then close that document: the clone takes its place.
   */
  lemma RelinkThenClose(s: seq<DocId>, src: DocId, x: DocId)
    requires Distinct(s) && src in s && x !in s
    ensures Without(InsertAfter(s, src, x), src) == Replace(s, src, x)
  {
    var i := IndexOf(s, src);
    InsertAfterSplit(s, src, x);
    DistinctNotBefore(s, i);
    InsertThenDrop(s, i, x);
  }

  /** Dropping position i after inserting x at i + 1 leaves x in i's place. */
  lemma InsertThenDrop(s: seq<DocId>, i: nat, x: DocId)
    requires i < |s| && s[i] !in s[..i]
    ensures IndexOf(s[..i + 1] + [x] + s[i + 1..], s[i]) == i
    ensures var r := s[..i + 1] + [x] + s[i + 1..]; r[..i] + r[i + 1..] == s[..i] + [x] + s[i + 1..]
  {
    var r := s[..i + 1] + [x] + s[i + 1..];
    assert r[..i] == s[..i] && r[i] == s[i];
    IndexOfFirst(r, s[i], i);
    assert r[i + 1..] == [x] + s[i + 1..];
  }

  /** Linking a new element into a list without repeats keeps it without repeats. */
  lemma InsertAfterDistinct(s: seq<DocId>, src: DocId, x: DocId)
    requires Distinct([x] + s) && src in s
    ensures Distinct(InsertAfter(s, src, x))
  {
    var j := IndexOf(s, src);
    var r := InsertAfter(s, src, x);
    var all := [x] + s;
    InsertAfterSplit(s, src, x);
    forall a, b | 0 <= a < b < |r| ensures r[a] != r[b] {
      var fa := if a <= j then a + 1 else if a == j + 1 then 0 else a;
      var fb := if b <= j then b + 1 else if b == j + 1 then 0 else b;
      assert r[a] == all[fa] && r[b] == all[fb];
    }
  }

  // ---------------------------------------------------------------------
  // The linked list itself: a head pointer and each document's next field.

  /** The pointer to list position i: the i-th document, or null past the end. */
  function At(docs: seq<DocId>, i: nat): Option<DocId>
  {
    if i < |docs| then Some(docs[i]) else None
  }

  /** `head` and the `next` fields thread exactly `docs`, in order, ending in null. */
  ghost predicate Threads(head: Option<DocId>, next: map<DocId, Option<DocId>>, docs: seq<DocId>)
  {
    && head == At(docs, 0)
    && (forall i :: 0 <= i < |docs| ==> docs[i] in next)
    && forall i {:trigger next[docs[i]]} :: 0 <= i < |docs| ==> next[docs[i]] == At(docs, i + 1)
  }

  /**
   * A list threaded through `next` has no repeats: two equal entries would
   * have equal successors all the way to the end of the list.
   */
  lemma ThreadsDistinct(head: Option<DocId>, next: map<DocId, Option<DocId>>, docs: seq<DocId>)
    requires Threads(head, next, docs)
    ensures Distinct(docs)
  {
    forall i, j | 0 <= i < j < |docs| ensures docs[i] != docs[j] {
      ThreadsApart(head, next, docs, i, j);
    }
  }

  lemma {:induction false} ThreadsApart(head: Option<DocId>, next: map<DocId, Option<DocId>>, docs: seq<DocId>, i: nat, j: nat)
    requires Threads(head, next, docs) && i < j < |docs|
    ensures docs[i] != docs[j]
    decreases |docs| - j
  {
    if j + 1 < |docs| {
      ThreadsApart(head, next, docs, i + 1, j + 1);
    }
    assert next[docs[i]] == At(docs, i + 1) && next[docs[j]] == At(docs, j + 1);
  }

  /** addToWindowList's assignments put d in front of the list. */
  lemma PushThreads(head: Option<DocId>, next: map<DocId, Option<DocId>>, docs: seq<DocId>, d: DocId)
    requires Threads(head, next, docs) && d !in docs
    ensures Threads(Some(d), next[d := head], [d] + docs)
  {
    var docs' := [d] + docs;
    forall i | 1 <= i < |docs'| ensures docs'[i] == docs[i - 1] != d { }
  }

  /** Unlinking the head (WindowList takes the head's successor) leaves the rest of the list. */
  lemma PopThreads(head: Option<DocId>, next: map<DocId, Option<DocId>>, docs: seq<DocId>)
    requires Threads(head, next, docs) && docs != []
    ensures Threads(next[docs[0]], next, docs[1..])
  {
  }

  /**
   * Pointing the next field of the document at position i past its
   * successor unlinks that successor and nothing else.
   */
  lemma UnlinkThreads(head: Option<DocId>, next: map<DocId, Option<DocId>>, docs: seq<DocId>, i: nat)
    requires Threads(head, next, docs) && Distinct(docs) && i + 1 < |docs|
    ensures Threads(head, next[docs[i] := next[docs[i + 1]]], docs[..i + 1] + docs[i + 2..])
  {
    var next' := next[docs[i] := next[docs[i + 1]]];
    var docs' := docs[..i + 1] + docs[i + 2..];
    forall k | 0 <= k < |docs'| ensures docs'[k] in next' && next'[docs'[k]] == At(docs', k + 1) {
      if k < i {
        assert docs'[k] == docs[k] && docs'[k + 1] == docs[k + 1];
      } else if k > i {
        assert docs'[k] == docs[k + 1];
      }
    }
  }

  /**
   * The three assignments Detach and Move make after the clone was pushed
   * onto the head: WindowList = clone->next, clone->next = src->next,
   * src->next = clone.  They move the clone to directly after src.
   */
  lemma RelinkThreads(next: map<DocId, Option<DocId>>, docs: seq<DocId>, src: DocId, clone: DocId)
    requires Threads(Some(clone), next, [clone] + docs) && src in docs
    requires clone in next && src in next
    ensures Threads(next[clone], next[clone := next[src]][src := Some(clone)], InsertAfter(docs, src, clone))
  {
    var all := [clone] + docs;
    ThreadsDistinct(Some(clone), next, all);
    var j := IndexOf(docs, src);
    var next' := next[clone := next[src]][src := Some(clone)];
    var docs' := InsertAfter(docs, src, clone);
    InsertAfterSplit(docs, src, clone);
    assert clone !in docs by {
      forall k | 0 <= k < |docs| ensures docs[k] != clone {
        assert docs[k] == all[k + 1];
      }
    }
    assert next[src] == At(docs, j + 1) by {
      assert all[j + 1] == src;
    }
    forall k | 0 <= k < |docs'| ensures docs'[k] in next' && next'[docs'[k]] == At(docs', k + 1) {
      if k <= j {
        assert docs'[k] == docs[k] == all[k + 1];
        if k < j {
          assert docs[k] != src by {
            assert all[k + 1] != all[j + 1];
          }
        }
      } else if k > j + 1 {
        assert docs'[k] == docs[k - 1] == all[k];
        assert docs[k - 1] != src by {
          assert all[k] != all[j + 1];
        }
      }
    }
  }

  /**
   * The focus history after raising d: d becomes the active document, and
   * the previously active one becomes the last one when it is another
   * document that is still registered.
   */
  function FocusAfterRaise(inFocus: Option<DocId>, lastFocus: Option<DocId>, d: DocId, docs: seq<DocId>)
    : (r: (Option<DocId>, Option<DocId>))
    ensures r.0 == Some(d)
    ensures r.1 == lastFocus || (r.1 == inFocus && r.1 != Some(d))
    ensures r.1 != lastFocus ==> r.1.Some? && r.1.value in docs
    ensures inFocus.Some? && inFocus != Some(d) && inFocus.value in docs ==> r.1 == inFocus
  {
    if inFocus.Some? && inFocus != Some(d) && inFocus.value in docs then (Some(d), inFocus)
    else (Some(d), lastFocus)
  }

  /**
   * LastDocument after switching from a to b brings back a, and doing it
   * again brings back b: the focus history toggles between the two.
   */
  lemma LastDocumentToggles(a: DocId, b: DocId, lastFocus: Option<DocId>, docs: seq<DocId>)
    requires a in docs && b in docs && a != b
    ensures FocusAfterRaise(Some(a), lastFocus, b, docs) == (Some(b), Some(a))
    ensures FocusAfterRaise(Some(b), Some(a), a, docs) == (Some(a), Some(b))
  {
  }

  /**
   * GetShowTabBar: the tab bar is shown when the preference asks for it,
   * except on a window holding a single document when the preference hides
   * the bar for single documents.
   */
  function ShowTabBarRule(prefTabBar: bool, prefHideOne: bool, nDocuments: int): (show: bool)
    ensures !prefTabBar ==> !show
    ensures prefTabBar && nDocuments == 1 ==> show == !prefHideOne
    ensures prefTabBar && nDocuments != 1 ==> show
  {
    if !prefTabBar then false
    else if nDocuments == 1 then !prefHideOne
    else true
  }

  /** ShowWindowTabBar's rule, which tests "more than one" instead of "not one". */
  function WindowTabBarRule(prefTabBar: bool, prefHideOne: bool, nDocuments: int): (show: bool)
    ensures show ==> prefTabBar
    ensures prefTabBar && !prefHideOne ==> show
    ensures prefTabBar && prefHideOne ==> (show <==> nDocuments > 1)
  {
    if prefTabBar then (if prefHideOne then nDocuments > 1 else true) else false
  }

  /** The two rules agree for any window that holds a document. */
  lemma TabBarRulesAgree(prefTabBar: bool, prefHideOne: bool, nDocuments: int)
    requires nDocuments >= 1
    ensures ShowTabBarRule(prefTabBar, prefHideOne, nDocuments) == WindowTabBarRule(prefTabBar, prefHideOne, nDocuments)
  {
  }

  class WindowRegistry {
    // WindowList and each document's `next` field.  A removed document
    // keeps its stale `next` entry, as the source's does.
    var head: Option<DocId>
    var next: map<DocId, Option<DocId>>
    // The registered documents in list order.
    ghost var Docs: seq<DocId>

    // Each document's shell window and its copy of the shell-level settings.
    var shellOf: map<DocId, ShellId>
    var flags: map<DocId, ShellFlags>

    // inFocusDocument and lastFocusDocument.
    var inFocus: Option<DocId>
    var lastFocus: Option<DocId>

    // The document each shell shows on top (its main window's user data).
    var top: map<ShellId, DocId>

    /**
     * `head` and `next` thread exactly the documents of Docs, in order (and
     * so without repeats), and every registered document has a shell and settings.
     */
    ghost predicate Valid()
      reads this`head, this`next, this`Docs, this`shellOf, this`flags
    {
      && Threads(head, next, Docs)
      && (forall d :: d in Docs ==> d in shellOf && d in flags)
    }

    /** NDocuments as a value: the number of registered documents in shell sh. */
    ghost function Count(sh: ShellId): nat
      reads this`head, this`next, this`Docs, this`shellOf, this`flags
      requires Valid()
    {
      CountShell(Docs, shellOf, sh)
    }

    /**
     * Shell sh shows on top a registered document of its own other than d,
     * and that document is the active one.
     */
    ghost predicate ShowsOther(sh: ShellId, d: DocId)
      reads this
    {
      && sh in top && top[sh] != d && top[sh] in Docs
      && top[sh] in shellOf && shellOf[top[sh]] == sh
      && inFocus == Some(top[sh])
    }

    /** The documents of one shell agree on every shell-level setting. */
    ghost predicate ShellsAgree()
      reads this
    {
      forall x, y ::
        (x in Docs && y in Docs && x in shellOf && y in shellOf && shellOf[x] == shellOf[y] && x in flags && y in flags)
        ==> flags[x] == flags[y]
    }

    /** No document is registered and nothing has had focus yet. */
    constructor ()
      ensures Valid() && ShellsAgree() && Docs == [] && inFocus == None && lastFocus == None
    {
      head := None;
      next := map[];
      Docs := [];
      shellOf := map[];
      flags := map[];
      inFocus := None;
      lastFocus := None;
      top := map[];
    }

    /** addToWindowList: d becomes the head, with the old list behind it. */
    method AddToWindowList(d: DocId)
      requires Valid() && d !in Docs && d in shellOf && d in flags
      modifies this`head, this`next, this`Docs
      ensures Valid() && head == Some(d) && Docs == [d] + old(Docs)
    {
      PushThreads(head, next, Docs, d);
      var temp := head;
      head := Some(d);
      next := next[d := temp];
      Docs := [d] + Docs;
    }

    /**
     * removeFromWindowList: unlink d from the head or from its predecessor.
     * A document that is not registered leaves the list alone.
     */
    method RemoveFromWindowList(d: DocId)
      requires Valid()
      modifies this`head, this`next, this`Docs
      ensures Valid() && Docs == Without(old(Docs), d)
    {
      ThreadsDistinct(head, next, Docs);
      if head == Some(d) {
        DistinctIndex(Docs, 0);
        PopThreads(head, next, Docs);
        head := next[d];
        Docs := Docs[1..];
        return;
      }
      var temp := head;
      ghost var i := 0;
      while temp.Some?
        invariant i <= |Docs| && temp == At(Docs, i)
        invariant forall k :: 0 <= k <= i && k < |Docs| ==> Docs[k] != d
        decreases |Docs| - i
      {
        var w := temp.value;
        if next[w] == Some(d) {
          DistinctIndex(Docs, i + 1);
          Unlink(w, i);
          return;
        }
        temp := next[w];
        i := i + 1;
      }
      assert d !in Docs;
    }

    /** Unlink the document after w, which stands at list position i, from w. */
    method Unlink(w: DocId, ghost i: nat)
      requires Valid() && i + 1 < |Docs| && Docs[i] == w
      modifies this`next, this`Docs
      ensures Valid() && Docs == old(Docs[..i + 1] + Docs[i + 2..])
    {
      ThreadsDistinct(head, next, Docs);
      UnlinkThreads(head, next, Docs, i);
      var d := next[w].value;
      next := next[w := next[d]];
      Docs := Docs[..i + 1] + Docs[i + 2..];
    }

    /** IsValidWindow: whether d is still registered. */
    method IsValidWindow(d: DocId) returns (valid: bool)
      requires Valid()
      ensures valid <==> d in Docs
    {
      var win := head;
      ghost var i := 0;
      while win.Some?
        invariant i <= |Docs| && win == At(Docs, i)
        invariant d !in Docs[..i]
        decreases |Docs| - i
      {
        if win.value == d {
          return true;
        }
        assert Docs[..i + 1] == Docs[..i] + [Docs[i]];
        win := next[win.value];
        i := i + 1;
      }
      assert Docs[..i] == Docs;
      return false;
    }

    /** Whether d is the whole list: WindowList is d and d's next is null. */
    method IsOnlyDocument(d: DocId) returns (only: bool)
      requires Valid() && d in Docs
      ensures only <==> Docs == [d]
    {
      only := head == Some(d) && next[d] == None;
      if only {
        assert Docs[0] == d && |Docs| == 1;
      }
    }

    /** NDocuments: how many registered documents share d's shell. */
    method NDocuments(d: DocId) returns (n: nat)
      requires Valid() && d in shellOf
      ensures n == CountShell(Docs, shellOf, shellOf[d])
    {
      n := 0;
      var win := head;
      ghost var i := 0;
      while win.Some?
        invariant i <= |Docs| && win == At(Docs, i)
        invariant forall x :: x in Docs[..i] ==> x in Docs
        invariant n == CountShell(Docs[..i], shellOf, shellOf[d])
        decreases |Docs| - i
      {
        var w := win.value;
        if shellOf[w] == shellOf[d] {
          n := n + 1;
        }
        assert Docs[..i + 1][..i] == Docs[..i];
        win := next[w];
        i := i + 1;
      }
      assert Docs[..i] == Docs;
    }

    /** IsTopDocument: whether d is the document its shell shows. */
    predicate IsTopDocument(d: DocId)
      reads this`shellOf, this`top
      requires d in shellOf
      // a shell shows one document: no other document of d's shell is on top
      ensures IsTopDocument(d) ==>
        forall e :: e in shellOf && e != d && shellOf[e] == shellOf[d] ==> !(shellOf[e] in top && top[shellOf[e]] == e)
    {
      shellOf[d] in top && top[shellOf[d]] == d
    }

    /** MarkActiveDocument: record d as active and answer the previous one. */
    method MarkActiveDocument(d: Option<DocId>) returns (prev: Option<DocId>)
      modifies this`inFocus
      ensures prev == old(inFocus)
      ensures inFocus == if d.Some? then d else old(inFocus)
    {
      prev := inFocus;
      if d.Some? {
        inFocus := d;
      }
    }

    /** MarkLastDocument: record d as the last document and answer the previous one. */
    method MarkLastDocument(d: Option<DocId>) returns (prev: Option<DocId>)
      modifies this`lastFocus
      ensures prev == old(lastFocus)
      ensures lastFocus == if d.Some? then d else old(lastFocus)
    {
      prev := lastFocus;
      if d.Some? {
        lastFocus := d;
      }
    }

    /**
     * RaiseDocument's bookkeeping: with d given and some document
     * registered, d becomes the active document, the previous active
     * document becomes the last one when it differs and is still
     * registered, and d becomes its shell's top document.
     */
    method RaiseDocument(d: Option<DocId>)
      requires Valid() && (d.Some? ==> d.value in shellOf)
      modifies this`inFocus, this`lastFocus, this`top
      ensures d.None? || head.None? ==>
        inFocus == old(inFocus) && lastFocus == old(lastFocus) && top == old(top)
      ensures d.Some? && head.Some? ==>
        && (inFocus, lastFocus) == FocusAfterRaise(old(inFocus), old(lastFocus), d.value, Docs)
        && top == old(top)[shellOf[d.value] := d.value]
    {
      if d.None? || head.None? {
        return;
      }
      var lastwin := MarkActiveDocument(d);
      if lastwin != d && lastwin.Some? {
        var valid := IsValidWindow(lastwin.value);
        if valid {
          var _ := MarkLastDocument(lastwin);
        }
      }
      var sh := shellOf[d.value];
      if sh in top && top[sh] == d.value {
        return;
      }
      top := top[sh := d.value];
    }

    /**
     * LastDocument: raise the last focused document if it is still
     * registered.  Whether it shares the caller's shell only decides
     * whether its shell window is raised too, which is display work.
     */
    method LastDocument()
      requires Valid()
      modifies this`inFocus, this`lastFocus, this`top
      ensures old(lastFocus).Some? && old(lastFocus).value in Docs ==>
        && (inFocus, lastFocus) == FocusAfterRaise(old(inFocus), old(lastFocus), old(lastFocus).value, Docs)
        && top == old(top)[shellOf[old(lastFocus).value] := old(lastFocus).value]
      ensures old(lastFocus).None? || old(lastFocus).value !in Docs ==>
        inFocus == old(inFocus) && lastFocus == old(lastFocus) && top == old(top)
    {
      var win := head;
      ghost var i := 0;
      while win.Some?
        invariant i <= |Docs| && win == At(Docs, i)
        invariant lastFocus.Some? ==> lastFocus.value !in Docs[..i]
        decreases |Docs| - i
      {
        if lastFocus == win {
          break;
        }
        assert Docs[..i + 1] == Docs[..i] + [Docs[i]];
        win := next[win.value];
        i := i + 1;
      }
      if win.None? {
        assert Docs[..i] == Docs;
        return;
      }
      RaiseDocument(win);
    }

    /**
     * The synchronisation loop of the Show...Line operations: every other
     * registered document of d's shell takes the new value of the setting.
     */
    method SyncShell(d: DocId, which: Setting, state: bool)
      requires Valid() && d in shellOf
      modifies this`flags
      ensures flags.Keys == old(flags).Keys
      ensures forall x :: x in flags ==>
        flags[x] == if x != d && x in Docs && shellOf[x] == shellOf[d] then With(old(flags)[x], which, state)
                    else old(flags)[x]
    {
      ThreadsDistinct(head, next, Docs);
      var win := head;
      ghost var i := 0;
      while win.Some?
        invariant i <= |Docs| && win == At(Docs, i)
        invariant flags.Keys == old(flags).Keys
        invariant forall x :: x in flags ==>
          flags[x] == if x != d && x in Docs[..i] && shellOf[x] == shellOf[d] then With(old(flags)[x], which, state)
                      else old(flags)[x]
        decreases |Docs| - i
      {
        var w := win.value;
        assert Docs[..i + 1] == Docs[..i] + [w];
        assert w !in Docs[..i] by {
          forall k | 0 <= k < i ensures Docs[..i][k] != w {
            assert Docs[..i][k] == Docs[k];
          }
        }
        if shellOf[w] != shellOf[d] || w == d {
        } else {
          flags := flags[w := With(flags[w], which, state)];
        }
        win := next[w];
        i := i + 1;
      }
      assert Docs[..i] == Docs;
    }

    /** The settings after d and its shell's other documents took the new value. */
    ghost predicate SetInShell(oldFlags: map<DocId, ShellFlags>, d: DocId, which: Setting, state: bool)
      reads this
    {
      && flags.Keys == oldFlags.Keys
      && d in shellOf
      && forall x :: x in flags ==>
        flags[x] == if x == d || (x in Docs && x in shellOf && shellOf[x] == shellOf[d])
                    then With(oldFlags[x], which, state) else oldFlags[x]
    }

    /** Set d's own copy of a setting, then bring the rest of its shell in line. */
    method SetShellSetting(d: DocId, which: Setting, state: bool)
      requires Valid() && d in shellOf && d in flags
      modifies this`flags
      ensures SetInShell(old(flags), d, which, state)
      ensures old(ShellsAgree()) && d in Docs ==> ShellsAgree()
    {
      ghost var flags0 := flags;
      flags := flags[d := With(flags[d], which, state)];
      ghost var flags1 := flags;
      SyncShell(d, which, state);
      assert forall x :: x in flags ==>
        flags[x] == if x != d && x in Docs && shellOf[x] == shellOf[d] then With(flags1[x], which, state)
                    else flags1[x];
    }

    /**
     * ShowISearchLine: nothing to do when d already has this setting;
     * otherwise d and every other document of its shell take it.
     */
    method ShowISearchLine(d: DocId, state: bool)
      requires Valid() && d in shellOf && d in flags
      modifies this`flags
      ensures Get(old(flags)[d], ISearchLine) == state ==> flags == old(flags)
      ensures Get(old(flags)[d], ISearchLine) != state ==> SetInShell(old(flags), d, ISearchLine, state)
      ensures old(ShellsAgree()) && d in Docs ==> ShellsAgree()
    {
      if Get(flags[d], ISearchLine) == state {
        return;
      }
      SetShellSetting(d, ISearchLine, state);
    }

    /** ShowStatsLine: d and every other document of its shell take the setting, unconditionally. */
    method ShowStatsLine(d: DocId, state: bool)
      requires Valid() && d in shellOf && d in flags
      modifies this`flags
      ensures SetInShell(old(flags), d, StatsLine, state)
      ensures old(ShellsAgree()) && d in Docs ==> ShellsAgree()
    {
      SetShellSetting(d, StatsLine, state);
    }

    /**
     * ShowLineNumbers: nothing to do when d already has this setting;
     * otherwise d and every other document of its shell take it.
     */
    method ShowLineNumbers(d: DocId, state: bool)
      requires Valid() && d in shellOf && d in flags
      modifies this`flags
      ensures Get(old(flags)[d], LineNumbers) == state ==> flags == old(flags)
      ensures Get(old(flags)[d], LineNumbers) != state ==> SetInShell(old(flags), d, LineNumbers, state)
      ensures old(ShellsAgree()) && d in Docs ==> ShellsAgree()
    {
      if Get(flags[d], LineNumbers) == state {
        return;
      }
      SetShellSetting(d, LineNumbers, state);
    }

    /**
     * GetShowTabBar: whether d's window shows its tab bar, given the two
     * tab bar preferences.
     */
    method GetShowTabBar(d: DocId, prefTabBar: bool, prefHideOne: bool) returns (show: bool)
      requires Valid() && d in shellOf
      ensures show == ShowTabBarRule(prefTabBar, prefHideOne, CountShell(Docs, shellOf, shellOf[d]))
    {
      if !prefTabBar {
        return false;
      }
      var n := NDocuments(d);
      if n == 1 {
        return !prefHideOne;
      }
      return true;
    }

    /**
     * The registry part of the Document constructor: a new document in a
     * new shell window, with the preferred shell-level settings, is that
     * shell's top document and joins the head of the list.
     */
    method NewWindow(d: DocId, sh: ShellId, prefs: ShellFlags)
      requires Valid() && d !in Docs
      requires forall x :: x in Docs ==> shellOf[x] != sh
      modifies this`head, this`next, this`Docs, this`shellOf, this`flags, this`top
      ensures Valid() && Docs == [d] + old(Docs) && head == Some(d)
      ensures shellOf == old(shellOf)[d := sh] && flags == old(flags)[d := prefs] && top == old(top)[sh := d]
      ensures forall x :: x in Docs && x != d ==> shellOf[x] != sh
    {
      shellOf := shellOf[d := sh];
      flags := flags[d := prefs];
      top := top[sh := d];
      AddToWindowList(d);
    }

    /**
     * The registry part of CreateDocument: a new document copied from
     * `host` shares its shell and settings and joins the head of the list
     * without becoming the shell's top document.
     */
    method CreateDocument(host: DocId, d: DocId)
      requires Valid() && host in Docs && d !in Docs
      modifies this`head, this`next, this`Docs, this`shellOf, this`flags
      ensures Valid() && Docs == [d] + old(Docs) && head == Some(d)
      ensures shellOf == old(shellOf)[d := old(shellOf)[host]] && flags == old(flags)[d := old(flags)[host]]
      ensures CountShell(Docs, shellOf, shellOf[host]) == old(CountShell(Docs, shellOf, shellOf[host])) + 1
      ensures old(ShellsAgree()) ==> ShellsAgree()
    {
      ghost var before := CountShell(Docs, shellOf, shellOf[host]);
      shellOf := shellOf[d := shellOf[host]];
      flags := flags[d := flags[host]];
      assert CountShell(Docs, shellOf, shellOf[host]) == before by {
        CountSameShells(Docs, old(shellOf), shellOf, shellOf[host]);
      }
      CountAddHead(Docs, d, shellOf, shellOf[host]);
      AddToWindowList(d);
    }

    /**
     * The three assignments Detach and Move make after the clone was
     * pushed onto the head: the list loses its head again and the clone is
     * linked in directly after src.
     */
    method RelinkAfter(src: DocId, clone: DocId)
      requires Valid() && head == Some(clone) && src in Docs && src != clone
      modifies this`head, this`next, this`Docs
      ensures Valid() && Docs == InsertAfter(old(Docs)[1..], src, clone)
    {
      ghost var s := Docs[1..];
      assert Docs == [clone] + s;
      ghost var docs' := InsertAfter(s, src, clone);
      ghost var next' := next[clone := next[src]][src := Some(clone)];
      RelinkThreads(next, s, src, clone);
      assert forall y :: y in docs' ==> y in shellOf && y in flags;
      head := next[clone];
      next := next[clone := next[src]];
      next := next[src := Some(clone)];
      assert next == next';
      Docs := docs';
    }
  }

  /** Counting one shell does not look at documents outside the list. */
  lemma {:induction false} CountSameShells(docs: seq<DocId>, m1: map<DocId, ShellId>, m2: map<DocId, ShellId>, sh: ShellId)
    requires forall x :: x in docs ==> x in m1 && x in m2 && m1[x] == m2[x]
    ensures CountShell(docs, m1, sh) == CountShell(docs, m2, sh)
  {
    if docs != [] {
      CountSameShells(docs[..|docs| - 1], m1, m2, sh);
    }
  }
}
