/** What a skip list holds, seen from outside: the key/value pairs of its
    level-0 chain, in chain order. Insertion and removal on this view are
    the specifications the list's pointer surgery is proved against. */
module Entries {
  import opened StringOrder
  import opened Sequences

  datatype Option<T> = None | Some(value: T)

  /** One key/value pair, as a node stores it. */
  datatype Entry = Entry(key: string, value: string)

  /** Keys strictly increase along the sequence (so no key repeats). */
  ghost predicate StrictlySorted(es: seq<Entry>)
  {
    forall j, k :: 0 <= j < k < |es| ==> Less(es[j].key, es[k].key)
  }

  function KeySet(es: seq<Entry>): set<string>
  {
    set e | e in es :: e.key
  }

  predicate HasKey(es: seq<Entry>, k: string)
  {
    k in KeySet(es)
  }

  /** The value stored under k: the first entry with that key, if any. */
  function Lookup(es: seq<Entry>, k: string): (r: Option<string>)
    ensures r.Some? <==> HasKey(es, k)
  {
    if es == [] then None
    else if es[0].key == k then Some(es[0].value)
    else
      assert KeySet(es) == {es[0].key} + KeySet(es[1..]) by {
        assert es == [es[0]] + es[1..];
      }
      Lookup(es[1..], k)
  }

  /** The position at which a traversal for k stops: the number of leading
      entries whose keys are less than k. */
  function Pos(es: seq<Entry>, k: string): (p: nat)
    ensures p <= |es|
    ensures forall j :: 0 <= j < p ==> Less(es[j].key, k)
    ensures p < |es| ==> !Less(es[p].key, k)
  {
    if |es| == 0 || !Less(es[0].key, k) then 0 else 1 + Pos(es[1..], k)
  }

  /** Insertion as the list performs it: a present key leaves everything
      as it was; an absent one is placed where the traversal stopped. */
  function InsertSorted(es: seq<Entry>, k: string, v: string): seq<Entry>
  {
    if HasKey(es, k) then es else InsertAt(es, Pos(es, k), Entry(k, v))
  }

  /** Removal as the list performs it: the entry where the traversal
      stopped is dropped when it carries the key. */
  function RemoveKey(es: seq<Entry>, k: string): seq<Entry>
  {
    var p := Pos(es, k);
    if p < |es| && es[p].key == k then RemoveAt(es, p) else es
  }

  /** In a sorted sequence every entry from Pos on is at least k. */
  lemma PosSorted(es: seq<Entry>, k: string)
    requires StrictlySorted(es)
    ensures forall j :: Pos(es, k) <= j < |es| ==> !Less(es[j].key, k)
  {
    var p := Pos(es, k);
    forall j | p < j < |es|
      ensures !Less(es[j].key, k)
    {
      if Less(es[j].key, k) {
        LessTransitive(es[p].key, es[j].key, k);
      }
    }
  }

  /** In a sorted sequence without k, every entry from Pos on is above k. */
  lemma PosAbove(es: seq<Entry>, k: string)
    requires StrictlySorted(es) && !HasKey(es, k)
    ensures forall j :: Pos(es, k) <= j < |es| ==> Less(k, es[j].key)
  {
    PosSorted(es, k);
    forall j | Pos(es, k) <= j < |es|
      ensures Less(k, es[j].key)
    {
      assert es[j] in es;
      LessTotal(k, es[j].key);
    }
  }

  /** In a sorted sequence k is present exactly when the traversal stops on it. */
  lemma PosFinds(es: seq<Entry>, k: string)
    requires StrictlySorted(es)
    ensures HasKey(es, k) <==> Pos(es, k) < |es| && es[Pos(es, k)].key == k
  {
    var p := Pos(es, k);
    if HasKey(es, k) {
      var e :| e in es && e.key == k;
      var j :| 0 <= j < |es| && es[j] == e;
      PosSorted(es, k);
      LessIrreflexive(k);
      // before p every key is below k, and after p every key is above es[p]
      assert j == p;
    }
    if p < |es| && es[p].key == k {
      assert es[p] in es;
    }
  }

  /** Inserting into a sorted sequence keeps it sorted. */
  lemma InsertSortedSorted(es: seq<Entry>, k: string, v: string)
    requires StrictlySorted(es)
    ensures StrictlySorted(InsertSorted(es, k, v))
  {
    if !HasKey(es, k) {
      var p := Pos(es, k);
      var r := InsertAt(es, p, Entry(k, v));
      PosAbove(es, k);
      forall j, m | 0 <= j < m < |r|
        ensures Less(r[j].key, r[m].key)
      {
        if j < p && m > p {
          LessTransitive(es[j].key, k, es[m - 1].key);
        }
      }
    }
  }

  /** The keys after inserting e at any position are the old ones and e's. */
  lemma KeySetInsertAt(es: seq<Entry>, p: int, e: Entry)
    requires 0 <= p <= |es|
    ensures KeySet(InsertAt(es, p, e)) == KeySet(es) + {e.key}
  {
    InsertAtMembers(es, p, e);
  }

  /** Insertion adds k to the keys and grows the sequence by one exactly
      when k was absent. */
  lemma InsertSortedKeys(es: seq<Entry>, k: string, v: string)
    ensures KeySet(InsertSorted(es, k, v)) == KeySet(es) + {k}
    ensures |InsertSorted(es, k, v)| == if HasKey(es, k) then |es| else |es| + 1
  {
    if !HasKey(es, k) {
      KeySetInsertAt(es, Pos(es, k), Entry(k, v));
    }
  }

  /** Placing an entry with a new key anywhere gives that key its value
      and leaves the value of every other key as it was. */
  lemma {:induction false} LookupInsertAt(es: seq<Entry>, p: int, e: Entry, k: string)
    requires 0 <= p <= |es| && !HasKey(es, e.key)
    ensures Lookup(InsertAt(es, p, e), k) == if k == e.key then Some(e.value) else Lookup(es, k)
  {
    var r := InsertAt(es, p, e);
    if p == 0 {
      assert r[1..] == es;
    } else {
      assert es[0] in es;
      if es[0].key != k {
        assert r[1..] == InsertAt(es[1..], p - 1, e);
        assert KeySet(es[1..]) <= KeySet(es) by {
          assert forall e' :: e' in es[1..] ==> e' in es;
        }
        LookupInsertAt(es[1..], p - 1, e, k);
      }
    }
  }

  /** Insertion gives a newly added k its value and changes no other key's. */
  lemma InsertSortedLookup(es: seq<Entry>, k: string, v: string, k': string)
    ensures Lookup(InsertSorted(es, k, v), k') ==
              if k' == k && !HasKey(es, k) then Some(v) else Lookup(es, k')
  {
    if !HasKey(es, k) {
      LookupInsertAt(es, Pos(es, k), Entry(k, v), k');
    }
  }

  /** Removal keeps a sorted sequence sorted. */
  lemma RemoveKeySorted(es: seq<Entry>, k: string)
    requires StrictlySorted(es)
    ensures StrictlySorted(RemoveKey(es, k))
  {
    var p := Pos(es, k);
    if p < |es| && es[p].key == k {
      var r := RemoveAt(es, p);
      forall j, m | 0 <= j < m < |r|
        ensures Less(r[j].key, r[m].key)
      {
        var j', m' := if j < p then j else j + 1, if m < p then m else m + 1;
        assert r[j] == es[j'] && r[m] == es[m'];
      }
    }
  }

  /** In a sorted sequence the key at position p occurs nowhere else. */
  lemma SortedUnique(es: seq<Entry>, p: int)
    requires StrictlySorted(es) && 0 <= p < |es|
    ensures es[p].key !in KeySet(RemoveAt(es, p))
  {
    var r := RemoveAt(es, p);
    forall e | e in r
      ensures e.key != es[p].key
    {
      var j :| 0 <= j < |r| && r[j] == e;
      if j < p {
        assert Less(es[j].key, es[p].key);
      } else {
        assert Less(es[p].key, es[j + 1].key);
      }
      LessIrreflexive(es[p].key);
    }
  }

  /** Removal takes k out of the keys and shrinks the sequence by one
      exactly when k was present. */
  lemma RemoveKeyKeys(es: seq<Entry>, k: string)
    requires StrictlySorted(es)
    ensures KeySet(RemoveKey(es, k)) == KeySet(es) - {k}
    ensures |RemoveKey(es, k)| == if HasKey(es, k) then |es| - 1 else |es|
  {
    var p := Pos(es, k);
    PosFinds(es, k);
    if p < |es| && es[p].key == k {
      RemoveAtMembers(es, p);
      SortedUnique(es, p);
      forall k' | k' in KeySet(es) && k' != k
        ensures k' in KeySet(RemoveAt(es, p))
      {
        var j :| 0 <= j < |es| && es[j].key == k';
      }
    }
  }

  /** Dropping the entry at p leaves the value of every other key as the
      first entry carrying it gave it. */
  lemma {:induction false} LookupRemoveAt(es: seq<Entry>, p: int, k: string)
    requires 0 <= p < |es| && k != es[p].key
    ensures Lookup(RemoveAt(es, p), k) == Lookup(es, k)
  {
    if p == 0 {
      assert RemoveAt(es, p) == es[1..];
    } else if es[0].key != k {
      assert RemoveAt(es, p)[1..] == RemoveAt(es[1..], p - 1);
      LookupRemoveAt(es[1..], p - 1, k);
    }
  }

  /** Removal makes k absent and changes no other key's value. */
  lemma RemoveKeyLookup(es: seq<Entry>, k: string, k': string)
    requires StrictlySorted(es)
    ensures Lookup(RemoveKey(es, k), k') == if k' == k then None else Lookup(es, k')
  {
    var p := Pos(es, k);
    PosFinds(es, k);
    if p < |es| && es[p].key == k {
      if k' == k {
        SortedUnique(es, p);
      } else {
        LookupRemoveAt(es, p, k');
      }
    }
  }

  /** In a sorted sequence the traversal for the key at position p stops at p. */
  lemma PosOfKey(es: seq<Entry>, p: int)
    requires StrictlySorted(es) && 0 <= p < |es|
    ensures Pos(es, es[p].key) == p
  {
    assert es[p] in es;
    PosFinds(es, es[p].key);
    LessIrreflexive(es[p].key);
  }

  /** Removing a key just inserted gives back the sequence it went into. */
  lemma InsertRemoveKey(es: seq<Entry>, k: string, v: string)
    requires StrictlySorted(es) && !HasKey(es, k)
    ensures RemoveKey(InsertSorted(es, k, v), k) == es
  {
    var p := Pos(es, k);
    var r := InsertAt(es, p, Entry(k, v));
    LessIrreflexive(k);
    assert Pos(r, k) == p;
    RemoveInsert(es, p, Entry(k, v));
  }
}
