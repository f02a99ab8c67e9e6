/** Facts about sequences without repeated elements, shared by the pane and document lists. */
module Seqs {

  /** Pairwise distinct elements. */
  predicate Distinct<T(==)>(s: seq<T>)
  {
    forall i, j :: 0 <= i < j < |s| ==> s[i] != s[j]
  }

  /** Index of an element that is in the sequence (its first occurrence). */
  function IndexOf<T(==)>(s: seq<T>, x: T): (i: nat)
    requires x in s
    ensures i < |s| && s[i] == x
  {
    if s[0] == x then 0 else 1 + IndexOf(s[1..], x)
  }

  /** In a sequence without repeats, an element's index is where it stands. */
  lemma DistinctIndex<T>(s: seq<T>, i: nat)
    requires Distinct(s) && i < |s|
    ensures IndexOf(s, s[i]) == i
  {
    var j := IndexOf(s, s[i]);
    assert s[j] == s[i];
  }

  /** A prefix of a sequence without repeats has no repeats. */
  lemma DistinctPrefix<T>(s: seq<T>, n: nat)
    requires Distinct(s) && n <= |s|
    ensures Distinct(s[..n])
  {
  }

  /** An element found at i and nowhere before i has index i. */
  lemma {:induction false} IndexOfFirst<T>(s: seq<T>, x: T, i: nat)
    requires i < |s| && s[i] == x && x !in s[..i]
    ensures IndexOf(s, x) == i
  {
    if i > 0 {
      assert s[0] == s[..i][0];
      assert s[1..][..i - 1] == s[..i][1..];
      IndexOfFirst(s[1..], x, i - 1);
    }
  }

  /** In a sequence without repeats, nothing before position i equals s[i]. */
  lemma DistinctNotBefore<T>(s: seq<T>, i: nat)
    requires Distinct(s) && i < |s|
    ensures s[i] !in s[..i]
  {
    forall k | 0 <= k < i ensures s[..i][k] != s[i] {
      assert s[..i][k] == s[k];
    }
  }
}
