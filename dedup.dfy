/**
 * First-occurrence deduplication, the idea behind both asset scripts' scan
 * loops: walking a sequence of tiles, a tile is appended to the list of
 * unique tiles the first time it is seen and skipped afterwards.
 */
module Deduplication {

  /** The distinct elements of `s`, in the order of their first occurrence. */
  function Dedup<T(==)>(s: seq<T>): seq<T>
  {
    if |s| == 0 then []
    else
      var d := Dedup(s[..|s| - 1]);
      if s[|s| - 1] in d then d else d + [s[|s| - 1]]
  }

  ghost predicate NoDuplicates<T>(s: seq<T>)
  {
    forall i, j :: 0 <= i < j < |s| ==> s[i] != s[j]
  }

  /** The position of the first occurrence of x in s. */
  function FirstIndex<T(==)>(s: seq<T>, x: T): (i: nat)
    requires x in s
    ensures i < |s| && s[i] == x && x !in s[..i]
  {
    if s[0] == x then 0
    else
      var j := FirstIndex(s[1..], x);
      assert s[..j + 1] == [s[0]] + s[1..][..j];
      j + 1
  }

  /** A position holding x with no earlier x is the first occurrence. */
  lemma FirstIndexUnique<T>(s: seq<T>, x: T, i: nat)
    requires i < |s| && s[i] == x && x !in s[..i]
    ensures FirstIndex(s, x) == i
  {
    var j := FirstIndex(s, x);
    assert j >= i;
  }

  /** Appending one element keeps the first occurrences of earlier elements. */
  lemma FirstIndexSnoc<T>(s: seq<T>, t: T, x: T)
    requires x in s + [t]
    ensures x in s ==> FirstIndex(s + [t], x) == FirstIndex(s, x)
    ensures x !in s ==> FirstIndex(s + [t], x) == |s|
  {
    var u := s + [t];
    if x in s {
      var i := FirstIndex(s, x);
      assert u[..i] == s[..i];
      FirstIndexUnique(u, x, i);
    } else {
      assert u[..|s|] == s;
      FirstIndexUnique(u, x, |s|);
    }
  }

  /** One step of the scan: what Dedup does with one more element. */
  lemma DedupSnoc<T>(s: seq<T>, t: T)
    ensures Dedup(s + [t]) == if t in Dedup(s) then Dedup(s) else Dedup(s) + [t]
  {
    assert (s + [t])[..|s|] == s;
  }

  /** Dedup keeps exactly the elements of its input. */
  lemma {:induction false} DedupElements<T>(s: seq<T>)
    ensures forall x :: x in Dedup(s) <==> x in s
  {
    if |s| > 0 {
      var p := s[..|s| - 1];
      DedupElements(p);
      assert s == p + [s[|s| - 1]];
    }
  }

  /** Dedup lists no element twice. */
  lemma {:induction false} DedupNoDuplicates<T>(s: seq<T>)
    ensures NoDuplicates(Dedup(s))
  {
    if |s| > 0 {
      DedupNoDuplicates(s[..|s| - 1]);
    }
  }

  /** Dedup lists elements in the order in which they first occur in s. */
  lemma {:induction false} DedupFirstOccurrenceOrder<T>(s: seq<T>)
    ensures forall x :: x in Dedup(s) ==> x in s
    ensures forall i, j :: 0 <= i < j < |Dedup(s)| ==>
      FirstIndex(s, Dedup(s)[i]) < FirstIndex(s, Dedup(s)[j])
  {
    DedupElements(s);
    if |s| > 0 {
      var p, t := s[..|s| - 1], s[|s| - 1];
      assert s == p + [t];
      DedupFirstOccurrenceOrder(p);
      DedupElements(p);
      var d, dp := Dedup(s), Dedup(p);
      forall i, j | 0 <= i < j < |d|
        ensures FirstIndex(s, d[i]) < FirstIndex(s, d[j])
      {
        FirstIndexSnoc(p, t, d[i]);
        FirstIndexSnoc(p, t, d[j]);
        if j < |dp| {
          assert d[i] == dp[i] && d[j] == dp[j];
        } else {
          assert d[i] == dp[i] && d[i] in p;
          assert d[j] == t && t !in p;
        }
      }
    }
  }

  /** A list without duplicates has as many elements as its set. */
  lemma {:induction false} NoDuplicatesCard<T>(s: seq<T>)
    requires NoDuplicates(s)
    ensures |set x | x in s| == |s|
  {
    if |s| > 0 {
      var p, t := s[..|s| - 1], s[|s| - 1];
      assert s == p + [t];
      NoDuplicatesCard(p);
      assert t !in p;
      assert (set x | x in s) == (set x | x in p) + {t};
    }
  }
}
