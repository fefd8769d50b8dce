/** Insertion into and deletion from a sequence at a position, described
    index by index so that proofs about them never reason about slices. */
module Sequences {

  /** s with x placed at position p. */
  function InsertAt<T>(s: seq<T>, p: int, x: T): (r: seq<T>)
    requires 0 <= p <= |s|
    ensures |r| == |s| + 1 && r[p] == x
    ensures forall j :: 0 <= j < p ==> r[j] == s[j]
    ensures forall j :: p < j < |r| ==> r[j] == s[j - 1]
  {
    s[..p] + [x] + s[p..]
  }

  /** s without the element at position p. */
  function RemoveAt<T>(s: seq<T>, p: int): (r: seq<T>)
    requires 0 <= p < |s|
    ensures |r| == |s| - 1
    ensures forall j :: 0 <= j < p ==> r[j] == s[j]
    ensures forall j :: p <= j < |r| ==> r[j] == s[j + 1]
  {
    s[..p] + s[p + 1..]
  }

  /** Removing what was just inserted gives back the original. */
  lemma RemoveInsert<T>(s: seq<T>, p: int, x: T)
    requires 0 <= p <= |s|
    ensures RemoveAt(InsertAt(s, p, x), p) == s
  {
    var r := RemoveAt(InsertAt(s, p, x), p);
    assert forall j :: 0 <= j < |s| ==> r[j] == s[j];
  }

  /** Putting back what was removed gives back the original. */
  lemma InsertRemove<T>(s: seq<T>, p: int)
    requires 0 <= p < |s|
    ensures InsertAt(RemoveAt(s, p), p, s[p]) == s
  {
    var r := InsertAt(RemoveAt(s, p), p, s[p]);
    assert forall j :: 0 <= j < |s| ==> r[j] == s[j];
  }

  /** The elements after insertion are the old ones and x. */
  lemma InsertAtMembers<T>(s: seq<T>, p: int, x: T)
    requires 0 <= p <= |s|
    ensures forall y :: y in InsertAt(s, p, x) <==> y in s || y == x
  {
    var r := InsertAt(s, p, x);
    forall y | y in s
      ensures y in r
    {
      var j :| 0 <= j < |s| && s[j] == y;
      if j < p {
        assert r[j] == y;
      } else {
        assert r[j + 1] == y;
      }
    }
  }

  /** The elements after removal are among the old ones, and every old one
      other than the removed element survives. */
  lemma RemoveAtMembers<T>(s: seq<T>, p: int)
    requires 0 <= p < |s|
    ensures forall y :: y in RemoveAt(s, p) ==> y in s
    ensures forall j :: 0 <= j < |s| && j != p ==> s[j] in RemoveAt(s, p)
  {
    var r := RemoveAt(s, p);
    forall j | 0 <= j < |s| && j != p
      ensures s[j] in r
    {
      if j < p {
        assert r[j] == s[j];
      } else {
        assert r[j - 1] == s[j];
      }
    }
  }
}
