/** A skip-list node with its tower of forward pointers, and the index
    arithmetic that says where each pointer of a chain of nodes must lead. */
module Towers {
  import opened StringOrder
  import opened Entries
  import opened Sequences

  /** SKIPLIST_MAXLEVEL: the highest level index; the head's tower has
      MaxLevel + 1 slots. */
  const MaxLevel := 20

  /** A key/value pair and its tower. `nodeLevel` is the highest index of
      the tower, not a count: `forward` has nodeLevel + 1 slots. The list
      never changes a node's key, value or tower size after creation. */
  class Node {
    const key: string
    const value: string
    const nodeLevel: int
    const forward: array<Node?>

    /** A node whose tower has level + 1 slots, all null. */
    constructor (k: string, v: string, level: nat)
      ensures key == k && value == v && nodeLevel == level
      ensures fresh(forward) && forward.Length == level + 1
      ensures forall i :: 0 <= i < forward.Length ==> forward[i] == null
    {
      key, value, nodeLevel := k, v, level;
      forward := new Node?[level + 1](_ => null);
    }
  }

  /** The entries stored by a chain of nodes, in chain order. */
  function EntriesOf(ns: seq<Node>): seq<Entry>
  {
    seq(|ns|, j requires 0 <= j < |ns| => Entry(ns[j].key, ns[j].value))
  }

  /** Where the level-lv pointer leaving position j of the level-0 chain ns
      must lead (position -1 stands for the head): the first later position
      whose tower reaches lv, or |ns| when there is none. */
  ghost function Succ(ns: seq<Node>, j: int, lv: int): (k: int)
    requires -1 <= j < |ns|
    ensures j < k <= |ns|
    ensures k < |ns| ==> ns[k].nodeLevel >= lv
    ensures forall m :: j < m < k ==> ns[m].nodeLevel < lv
    decreases |ns| - j
  {
    if j + 1 == |ns| then |ns|
    else if ns[j + 1].nodeLevel >= lv then j + 1
    else Succ(ns, j + 1, lv)
  }

  /** The node at position k, or null past the end of the chain. */
  ghost function At(ns: seq<Node>, k: int): Node?
  {
    if 0 <= k < |ns| then ns[k] else null
  }

  /** The node the level-lv pointer leaving position j must hold. */
  ghost function Fwd(ns: seq<Node>, j: int, lv: int): Node?
    requires -1 <= j < |ns|
  {
    At(ns, Succ(ns, j, lv))
  }

  /** Where position m of ns lands in InsertAt(ns, p, x). */
  ghost function Shift(m: int, p: int): int
  {
    if m < p then m else m + 1
  }

  /** Succ is characterised by its postcondition. */
  lemma SuccUnique(ns: seq<Node>, j: int, lv: int, k: int)
    requires -1 <= j < k <= |ns|
    requires k < |ns| ==> ns[k].nodeLevel >= lv
    requires forall m :: j < m < k ==> ns[m].nodeLevel < lv
    ensures Succ(ns, j, lv) == k
  {
  }

  /** Every position strictly between j and its successor has the same
      successor at that level. */
  lemma SuccSkip(ns: seq<Node>, u: int, j: int, lv: int)
    requires -1 <= u < |ns| && u <= j < Succ(ns, u, lv)
    ensures Succ(ns, j, lv) == Succ(ns, u, lv)
  {
    SuccUnique(ns, j, lv, Succ(ns, u, lv));
  }

  /** How splicing x in at position p moves the successor of a position j:
      it becomes x when x's tower reaches lv and x falls between j and j's old
      successor; otherwise it is j's old successor, shifted. */
  lemma InsertSucc(ns: seq<Node>, p: int, x: Node, j: int, lv: int)
    requires 0 <= p <= |ns| && -1 <= j < |ns|
    ensures x.nodeLevel >= lv && j < p && Succ(ns, j, lv) >= p ==>
              Succ(InsertAt(ns, p, x), j, lv) == p
    ensures !(x.nodeLevel >= lv && j < p && Succ(ns, j, lv) >= p) ==>
              Succ(InsertAt(ns, p, x), Shift(j, p), lv) == Shift(Succ(ns, j, lv), p)
  {
    var ns' := InsertAt(ns, p, x);
    var s := Succ(ns, j, lv);
    assert forall m :: 0 <= m < p ==> ns'[m] == ns[m];
    assert ns'[p] == x;
    assert forall m :: p < m < |ns'| ==> ns'[m] == ns[m - 1];
    if x.nodeLevel >= lv && j < p && s >= p {
      SuccUnique(ns', j, lv, p);
    } else {
      SuccUnique(ns', Shift(j, p), lv, Shift(s, p));
    }
  }

  /** The successor of the spliced node x is that of the position before it. */
  lemma InsertSuccNew(ns: seq<Node>, p: int, x: Node, lv: int)
    requires 0 <= p <= |ns|
    ensures Succ(InsertAt(ns, p, x), p, lv) == Succ(ns, p - 1, lv) + 1
  {
    var ns' := InsertAt(ns, p, x);
    assert forall m :: p < m < |ns'| ==> ns'[m] == ns[m - 1];
    SuccUnique(ns', p, lv, Succ(ns, p - 1, lv) + 1);
  }

  /** FwdInsert and FwdInsertNew restate InsertSucc and InsertSuccNew for the
      pointed-to nodes. */
  lemma FwdInsert(ns: seq<Node>, p: int, x: Node, j: int, lv: int)
    requires 0 <= p <= |ns| && -1 <= j < |ns|
    ensures x.nodeLevel >= lv && j < p && Succ(ns, j, lv) >= p ==>
              Fwd(InsertAt(ns, p, x), j, lv) == x
    ensures !(x.nodeLevel >= lv && j < p && Succ(ns, j, lv) >= p) ==>
              Fwd(InsertAt(ns, p, x), Shift(j, p), lv) == Fwd(ns, j, lv)
  {
    InsertSucc(ns, p, x, j, lv);
    var ns' := InsertAt(ns, p, x);
    var s := Succ(ns, j, lv);
    if s < |ns| {
      assert ns'[Shift(s, p)] == ns[s];
    }
  }

  lemma FwdInsertNew(ns: seq<Node>, p: int, x: Node, lv: int)
    requires 0 <= p <= |ns|
    ensures Fwd(InsertAt(ns, p, x), p, lv) == Fwd(ns, p - 1, lv)
  {
    InsertSuccNew(ns, p, x, lv);
    var ns' := InsertAt(ns, p, x);
    var s := Succ(ns, p - 1, lv);
    if s < |ns| {
      assert ns'[s + 1] == ns[s];
    }
  }

  /** EntriesOf commutes with splicing. */
  lemma EntriesOfIns(ns: seq<Node>, p: int, x: Node)
    requires 0 <= p <= |ns|
    ensures EntriesOf(InsertAt(ns, p, x)) ==
              EntriesOf(ns)[..p] + [Entry(x.key, x.value)] + EntriesOf(ns)[p..]
  {
  }

  /** What the top-down traversal records for level lv: position u (-1 for
      the head) is on level lv, its key is below k, and the next node on
      level lv, if any, is not below k. */
  ghost predicate IsPred(ns: seq<Node>, u: int, lv: int, k: string)
  {
    -1 <= u < |ns| &&
    (u == -1 || (ns[u].nodeLevel >= lv && Less(ns[u].key, k))) &&
    (Succ(ns, u, lv) == |ns| || !Less(ns[Succ(ns, u, lv)].key, k))
  }

  /** In a sorted chain the recorded predecessor at any level lies before the
      insertion point Pos, and its level-lv successor at or after it. */
  lemma PredBounds(ns: seq<Node>, u: int, lv: int, k: string)
    requires StrictlySorted(EntriesOf(ns))
    requires IsPred(ns, u, lv, k)
    ensures u < Pos(EntriesOf(ns), k) <= Succ(ns, u, lv)
  {
    var es := EntriesOf(ns);
    var s := Succ(ns, u, lv);
    PosSorted(es, k);
    if u >= 0 {
      assert es[u].key == ns[u].key;
    }
    if s < |ns| {
      assert es[s].key == ns[s].key;
    }
  }

  /** u (-1 for the head) is the last position before p whose tower
      reaches lv: the level-lv pointer leaving u jumps over p - 1. */
  ghost predicate Brackets(ns: seq<Node>, u: int, lv: int, p: int)
  {
    -1 <= u < |ns| && u < p <= Succ(ns, u, lv) && (u == -1 || ns[u].nodeLevel >= lv)
  }

  /** The last position before q whose tower reaches lv, -1 (the head)
      when there is none: the predecessor the traversal records at lv. */
  ghost function Last(ns: seq<Node>, lv: int, q: int): (u: int)
    requires 0 <= q <= |ns|
    ensures Brackets(ns, u, lv, q)
    ensures forall m :: u < m < q ==> ns[m].nodeLevel < lv
    decreases q
  {
    if q == 0 then -1
    else if ns[q - 1].nodeLevel >= lv then q - 1
    else Last(ns, lv, q - 1)
  }

  /** Only Last brackets q at level lv. */
  lemma BracketsUnique(ns: seq<Node>, u: int, lv: int, q: int)
    requires 0 <= q <= |ns| && Brackets(ns, u, lv, q)
    ensures u == Last(ns, lv, q)
  {
  }

  /** In a sorted chain the traversal records at each level exactly Last
      of the position where the key belongs. */
  lemma PredIsLast(ns: seq<Node>, u: int, lv: int, k: string)
    requires StrictlySorted(EntriesOf(ns)) && IsPred(ns, u, lv, k)
    ensures u == Last(ns, lv, Pos(EntriesOf(ns), k))
  {
    PredBounds(ns, u, lv, k);
    BracketsUnique(ns, u, lv, Pos(EntriesOf(ns), k));
  }

  /** What the top-down traversal has recorded once the levels above i are
      done, in a list of top level L with level-0 chain ns, for a key that
      belongs at position q: the Last node before q on levels i + 1..L, null
      on the others. */
  ghost function Recorded(head: Node, ns: seq<Node>, L: int, q: int, i: int): (r: seq<Node?>)
    requires 0 <= q <= |ns|
    ensures |r| == MaxLevel + 1
    ensures forall lv :: 0 <= lv <= MaxLevel ==>
              r[lv] == if i < lv <= L then NodeOr(head, ns, Last(ns, lv, q)) else null
  {
    seq(MaxLevel + 1, lv => if i < lv <= L then NodeOr(head, ns, Last(ns, lv, q)) else null)
  }

  /** One level of the traversal records one more node. */
  lemma RecordedStep(head: Node, ns: seq<Node>, L: int, q: int, i: int)
    requires 0 <= q <= |ns| && 0 <= i <= L <= MaxLevel
    ensures Recorded(head, ns, L, q, i - 1) == Recorded(head, ns, L, q, i)[i := NodeOr(head, ns, Last(ns, i, q))]
  {
  }

  /** Above every tower of ns the Last node is always the head, so raising
      the top level records the head on the new level. */
  lemma RecordedRaise(head: Node, ns: seq<Node>, L: int, q: int, lv: int)
    requires 0 <= q <= |ns| && 0 <= L < lv <= MaxLevel
    requires forall j :: 0 <= j < |ns| ==> ns[j].nodeLevel <= L
    ensures Recorded(head, ns, lv, q, -1) == Recorded(head, ns, lv - 1, q, -1)[lv := head]
  {
    assert Last(ns, lv, q) == -1;
  }

  /** The node at position u of the chain ns, the head for -1. */
  ghost function NodeOr(head: Node, ns: seq<Node>, u: int): Node
    requires -1 <= u < |ns|
  {
    if u == -1 then head else ns[u]
  }

  /** A level-0 walk that stops on a predecessor whose successor does not
      carry k proves k absent from a sorted chain. */
  lemma AbsentAfterWalk(ns: seq<Node>, c: int, k: string)
    requires StrictlySorted(EntriesOf(ns))
    requires forall j :: 0 <= j < |ns| ==> ns[j].nodeLevel >= 0
    requires IsPred(ns, c, 0, k)
    requires Fwd(ns, c, 0) == null || Fwd(ns, c, 0).key != k
    ensures !HasKey(EntriesOf(ns), k)
  {
    PredBounds(ns, c, 0, k);
    PosFinds(EntriesOf(ns), k);
  }

  /** The tower arrays of a chain of nodes. */
  ghost function TowerArrays(ns: seq<Node>): set<array<Node?>>
  {
    set n | n in ns :: n.forward
  }

  /** A node is never a tower array. */
  lemma NodeApart(m: Node, n: Node)
    ensures (m as object) != n.forward
  {
  }

  /** The position in ns of a node whose tower is a, or -1 if there is none. */
  ghost function TowerIndex(ns: seq<Node>, a: array<Node?>): int
  {
    if exists j :: 0 <= j < |ns| && ns[j].forward == a then
      var j :| 0 <= j < |ns| && ns[j].forward == a; j
    else -1
  }

  /** When no two nodes of ns share a tower, the tower of the node at j
      leads back to j. */
  lemma TowerIndexOf(ns: seq<Node>, j: int)
    requires forall j, k :: 0 <= j < k < |ns| ==> ns[j].forward != ns[k].forward
    requires 0 <= j < |ns|
    ensures TowerIndex(ns, ns[j].forward) == j
  {
  }

  /** The shape every tower keeps: the head's spans all levels, each node's
      has nodeLevel + 1 slots, and no two towers share an array (each tower
      leads back to its own position, so two equal towers sit at the same
      position). */
  ghost predicate Towered(head: Node, ns: seq<Node>)
  {
    head.forward.Length == MaxLevel + 1 &&
    (forall j :: 0 <= j < |ns| ==>
       0 <= ns[j].nodeLevel <= MaxLevel && ns[j].forward.Length == ns[j].nodeLevel + 1 &&
       ns[j].forward != head.forward && TowerIndex(ns, ns[j].forward) == j)
  }

  /** Every pointer of the head and of the towers of ns, at levels lo..hi,
      holds the node Succ says it must. */
  ghost predicate LinkedBetween(head: Node, ns: seq<Node>, lo: int, hi: int)
    reads head.forward, TowerArrays(ns)
  {
    (forall lv :: lo <= lv <= hi && 0 <= lv < head.forward.Length ==>
       head.forward[lv] == Fwd(ns, -1, lv)) &&
    (forall j, lv :: 0 <= j < |ns| && lo <= lv <= hi && 0 <= lv < ns[j].forward.Length ==>
       ns[j].forward[lv] == Fwd(ns, j, lv))
  }

  /** At a level x reaches, splicing x in after the predecessor u makes u
      point to x, gives x u's old target, and leaves every other position
      pointing at the node it pointed at before. */
  lemma SpliceAt(ns: seq<Node>, p: int, x: Node, u: int, lv: int)
    requires 0 <= p <= |ns| && Brackets(ns, u, lv, p)
    requires x.nodeLevel >= lv
    ensures Fwd(InsertAt(ns, p, x), u, lv) == x
    ensures Fwd(InsertAt(ns, p, x), p, lv) == Fwd(ns, u, lv)
    ensures forall j :: -1 <= j < |ns| && j != u && (j == -1 || ns[j].nodeLevel >= lv) ==>
              Fwd(InsertAt(ns, p, x), Shift(j, p), lv) == Fwd(ns, j, lv)
  {
    FwdInsert(ns, p, x, u, lv);
    FwdInsertNew(ns, p, x, lv);
    SuccSkip(ns, u, p - 1, lv);
    forall j | -1 <= j < |ns| && j != u && (j == -1 || ns[j].nodeLevel >= lv)
      ensures Fwd(InsertAt(ns, p, x), Shift(j, p), lv) == Fwd(ns, j, lv)
    {
      FwdInsert(ns, p, x, j, lv);
    }
  }

  /** At a level x does not reach, splicing x in moves no pointer. */
  lemma SpliceAbove(ns: seq<Node>, p: int, x: Node, lv: int)
    requires 0 <= p <= |ns| && x.nodeLevel < lv
    ensures forall j :: -1 <= j < |ns| ==> Fwd(InsertAt(ns, p, x), Shift(j, p), lv) == Fwd(ns, j, lv)
  {
    forall j | -1 <= j < |ns|
      ensures Fwd(InsertAt(ns, p, x), Shift(j, p), lv) == Fwd(ns, j, lv)
    {
      FwdInsert(ns, p, x, j, lv);
    }
  }

  /** Splicing a node with a tower of its own keeps the towers' shape. */
  lemma ToweredIns(head: Node, ns: seq<Node>, p: int, x: Node)
    requires Towered(head, ns) && 0 <= p <= |ns|
    requires 0 <= x.nodeLevel <= MaxLevel && x.forward.Length == x.nodeLevel + 1
    requires x.forward != head.forward && x.forward !in TowerArrays(ns)
    ensures Towered(head, InsertAt(ns, p, x))
    ensures TowerArrays(InsertAt(ns, p, x)) == TowerArrays(ns) + {x.forward}
  {
    var ns' := InsertAt(ns, p, x);
    assert forall j :: 0 <= j < p ==> ns'[j] == ns[j];
    assert forall j :: p < j < |ns'| ==> ns'[j] == ns[j - 1];
    forall j, k | 0 <= j < k < |ns'|
      ensures ns'[j].forward != ns'[k].forward
    {
      if j == p {
        assert ns'[k] in ns;
      } else if k == p {
        assert ns'[j] in ns;
      }
    }
    forall j | 0 <= j < |ns'|
      ensures TowerIndex(ns', ns'[j].forward) == j
    {
      TowerIndexOf(ns', j);
    }
    assert forall n :: n in ns' <==> n in ns || n == x;
  }

  /** The contents of the towers of ns, in chain order. */
  ghost function Snap(ns: seq<Node>): (ts: seq<seq<Node?>>)
    reads TowerArrays(ns)
    ensures |ts| == |ns|
    ensures forall j :: 0 <= j < |ns| ==> ts[j] == ns[j].forward[..]
  {
    seq(|ns|, j requires 0 <= j < |ns| reads TowerArrays(ns) => ns[j].forward[..])
  }

  /** LinkedBetween over levels 0..MaxLevel, stated on the contents hs of
      the head's tower and ts of the towers of ns. */
  ghost predicate LinkedSnap(hs: seq<Node?>, ts: seq<seq<Node?>>, ns: seq<Node>)
  {
    |ts| == |ns| &&
    (forall lv :: 0 <= lv < |hs| ==> hs[lv] == Fwd(ns, -1, lv)) &&
    (forall j, lv :: 0 <= j < |ns| && 0 <= lv < |ts[j]| ==> ts[j][lv] == Fwd(ns, j, lv))
  }

  lemma LinkedToSnap(head: Node, ns: seq<Node>)
    requires Towered(head, ns) && LinkedBetween(head, ns, 0, MaxLevel)
    ensures LinkedSnap(head.forward[..], Snap(ns), ns)
  {
  }

  lemma SnapToLinked(head: Node, ns: seq<Node>)
    requires Towered(head, ns) && LinkedSnap(head.forward[..], Snap(ns), ns)
    ensures LinkedBetween(head, ns, 0, MaxLevel)
  {
    var ts := Snap(ns);
    forall j, lv | 0 <= j < |ns| && 0 <= lv < ns[j].forward.Length
      ensures ns[j].forward[lv] == Fwd(ns, j, lv)
    {
      assert ts[j][lv] == ns[j].forward[lv];
    }
  }

  /** The state of a splice loop on the contents of the towers: on the
      levels lo + 1..hi the head (hs) and the towers of ns (ts) point where
      they must in the chain with x spliced in at p, and so does x (xs); on
      the other levels the head and ns point where they must in ns. Insert
      grows the range downwards from x's top level, remove shrinks it from
      the top. */
  ghost predicate SplicedSnap(hs: seq<Node?>, xs: seq<Node?>, ts: seq<seq<Node?>>,
                              x: Node, ns: seq<Node>, p: int, lo: int, hi: int)
    requires 0 <= p <= |ns|
  {
    HeadSpliced(hs, x, ns, p, lo, hi) && TowersSpliced(ts, x, ns, p, lo, hi) &&
    NewSpliced(xs, x, ns, p, lo, hi)
  }

  ghost predicate HeadSpliced(hs: seq<Node?>, x: Node, ns: seq<Node>, p: int, lo: int, hi: int)
    requires 0 <= p <= |ns|
  {
    forall lv :: 0 <= lv < |hs| ==>
      hs[lv] == if lo < lv <= hi then Fwd(InsertAt(ns, p, x), -1, lv) else Fwd(ns, -1, lv)
  }

  ghost predicate TowersSpliced(ts: seq<seq<Node?>>, x: Node, ns: seq<Node>, p: int, lo: int, hi: int)
    requires 0 <= p <= |ns|
  {
    |ts| == |ns| &&
    forall j, lv :: 0 <= j < |ns| && 0 <= lv < |ts[j]| ==>
      ts[j][lv] ==
        if lo < lv <= hi then Fwd(InsertAt(ns, p, x), Shift(j, p), lv) else Fwd(ns, j, lv)
  }

  ghost predicate NewSpliced(xs: seq<Node?>, x: Node, ns: seq<Node>, p: int, lo: int, hi: int)
    requires 0 <= p <= |ns|
  {
    forall lv :: 0 <= lv < |xs| && lo < lv <= hi ==> xs[lv] == Fwd(InsertAt(ns, p, x), p, lv)
  }

  /** The range lo' + 1..hi' differs from lo + 1..hi in level i only: i
      joins at the bottom, or leaves at the top. */
  ghost predicate Toggles(lo: int, hi: int, lo': int, hi': int, i: int)
  {
    (lo == i && lo' == i - 1 && hi' == hi) || (hi == i && hi' == i - 1 && lo' == lo)
  }

  /** Sizes of the tower contents: the head's spans all levels, x's and
      those of ns have nodeLevel + 1 slots. */
  ghost predicate SnapSized(hs: seq<Node?>, xs: seq<Node?>, ts: seq<seq<Node?>>, x: Node, ns: seq<Node>)
  {
    |hs| == MaxLevel + 1 && |xs| == x.nodeLevel + 1 && |ts| == |ns| &&
    (forall j :: 0 <= j < |ns| ==> |ts[j]| == ns[j].nodeLevel + 1)
  }

  /** Before the first step of insert nothing has moved. */
  lemma SplicedStart(hs: seq<Node?>, xs: seq<Node?>, ts: seq<seq<Node?>>, x: Node, ns: seq<Node>, p: int)
    requires 0 <= p <= |ns| && LinkedSnap(hs, ts, ns)
    ensures SplicedSnap(hs, xs, ts, x, ns, p, x.nodeLevel, x.nodeLevel)
  {
  }

  /** One step of the splice loop of insert, at level i, on the tower
      contents: x takes over the level-i pointer of its predecessor u (the
      head for -1), and u then points to x. */
  lemma SpliceStep(hs: seq<Node?>, xs: seq<Node?>, ts: seq<seq<Node?>>,
                   x: Node, ns: seq<Node>, p: int, u: int, i: int)
    requires 0 <= p <= |ns| && SnapSized(hs, xs, ts, x, ns)
    requires 0 <= i <= x.nodeLevel <= MaxLevel && Brackets(ns, u, i, p)
    requires SplicedSnap(hs, xs, ts, x, ns, p, i, x.nodeLevel)
    ensures u == -1 ==> SplicedSnap(hs[i := x], xs[i := hs[i]], ts, x, ns, p, i - 1, x.nodeLevel)
    ensures u != -1 ==>
              SplicedSnap(hs, xs[i := ts[u][i]], ts[u := ts[u][i := x]], x, ns, p, i - 1, x.nodeLevel)
  {
    SpliceAt(ns, p, x, u, i);
    var ns' := InsertAt(ns, p, x);
    var hi := x.nodeLevel;
    if u == -1 {
      HeadSet(hs, x, ns, p, i, hi, i - 1, hi, i, x);
      NewStep(xs, x, ns, p, i, hs[i]);
      TowersStill(ts, x, ns, p, i, hi, i - 1, hi, i);
    } else {
      assert Shift(u, p) == u;
      assert Fwd(ns', Shift(-1, p), i) == Fwd(ns, -1, i);
      HeadStill(hs, x, ns, p, i, hi, i - 1, hi, i);
      NewStep(xs, x, ns, p, i, ts[u][i]);
      TowersSet(ts, x, ns, p, i, hi, i - 1, hi, u, i, x);
    }
  }

  /** The head's slot i takes the value the new range needs there. */
  lemma HeadSet(hs: seq<Node?>, x: Node, ns: seq<Node>, p: int, lo: int, hi: int, lo': int, hi': int,
                i: int, v: Node?)
    requires 0 <= p <= |ns| && 0 <= i < |hs| && Toggles(lo, hi, lo', hi', i)
    requires HeadSpliced(hs, x, ns, p, lo, hi)
    requires v == if lo' < i <= hi' then Fwd(InsertAt(ns, p, x), -1, i) else Fwd(ns, -1, i)
    ensures HeadSpliced(hs[i := v], x, ns, p, lo', hi')
  {
    var hs' := hs[i := v];
    forall lv | 0 <= lv < |hs'|
      ensures hs'[lv] == if lo' < lv <= hi' then Fwd(InsertAt(ns, p, x), -1, lv) else Fwd(ns, -1, lv)
    {
      if lv != i {
        assert hs'[lv] == hs[lv];
        assert lo < lv <= hi <==> lo' < lv <= hi';
      }
    }
  }

  /** The head's slot i holds the same node in both chains. */
  lemma HeadStill(hs: seq<Node?>, x: Node, ns: seq<Node>, p: int, lo: int, hi: int, lo': int, hi': int,
                  i: int)
    requires 0 <= p <= |ns| && Toggles(lo, hi, lo', hi', i) && HeadSpliced(hs, x, ns, p, lo, hi)
    requires Fwd(InsertAt(ns, p, x), -1, i) == Fwd(ns, -1, i)
    ensures HeadSpliced(hs, x, ns, p, lo', hi')
  {
    forall lv | 0 <= lv < |hs|
      ensures hs[lv] == if lo' < lv <= hi' then Fwd(InsertAt(ns, p, x), -1, lv) else Fwd(ns, -1, lv)
    {
      assert lv != i ==> (lo < lv <= hi <==> lo' < lv <= hi');
    }
  }

  /** x's slot i takes the value the new chain needs there. */
  lemma NewStep(xs: seq<Node?>, x: Node, ns: seq<Node>, p: int, i: int, v: Node?)
    requires 0 <= p <= |ns| && 0 <= i < |xs| && NewSpliced(xs, x, ns, p, i, x.nodeLevel)
    requires v == Fwd(InsertAt(ns, p, x), p, i)
    ensures NewSpliced(xs[i := v], x, ns, p, i - 1, x.nodeLevel)
  {
    var xs' := xs[i := v];
    forall lv | 0 <= lv < |xs'| && i - 1 < lv <= x.nodeLevel
      ensures xs'[lv] == Fwd(InsertAt(ns, p, x), p, lv)
    {
      if lv != i {
        assert xs'[lv] == xs[lv];
      }
    }
  }

  /** No tower of ns needs a change at level i (the head is x's predecessor). */
  lemma TowersStill(ts: seq<seq<Node?>>, x: Node, ns: seq<Node>, p: int,
                    lo: int, hi: int, lo': int, hi': int, i: int)
    requires 0 <= p <= |ns| && Toggles(lo, hi, lo', hi', i) && TowersSpliced(ts, x, ns, p, lo, hi)
    requires forall j :: 0 <= j < |ns| ==> |ts[j]| == ns[j].nodeLevel + 1
    requires forall j :: -1 <= j < |ns| && j != -1 && (j == -1 || ns[j].nodeLevel >= i) ==>
               Fwd(InsertAt(ns, p, x), Shift(j, p), i) == Fwd(ns, j, i)
    ensures TowersSpliced(ts, x, ns, p, lo', hi')
  {
    forall j, lv | 0 <= j < |ns| && 0 <= lv < |ts[j]|
      ensures ts[j][lv] ==
                if lo' < lv <= hi' then Fwd(InsertAt(ns, p, x), Shift(j, p), lv) else Fwd(ns, j, lv)
    {
      if lv == i {
        assert ns[j].nodeLevel >= i;
      } else {
        assert lo < lv <= hi <==> lo' < lv <= hi';
      }
    }
  }

  /** Only u's tower needs a change at level i: its slot i takes the value
      the new range needs there. */
  lemma TowersSet(ts: seq<seq<Node?>>, x: Node, ns: seq<Node>, p: int,
                  lo: int, hi: int, lo': int, hi': int, u: int, i: int, v: Node?)
    requires 0 <= p <= |ns| && Toggles(lo, hi, lo', hi', i) && TowersSpliced(ts, x, ns, p, lo, hi)
    requires forall j :: 0 <= j < |ns| ==> |ts[j]| == ns[j].nodeLevel + 1
    requires 0 <= u < |ns| && 0 <= i < |ts[u]|
    requires v == if lo' < i <= hi' then Fwd(InsertAt(ns, p, x), Shift(u, p), i) else Fwd(ns, u, i)
    requires forall j :: -1 <= j < |ns| && j != u && (j == -1 || ns[j].nodeLevel >= i) ==>
               Fwd(InsertAt(ns, p, x), Shift(j, p), i) == Fwd(ns, j, i)
    ensures TowersSpliced(ts[u := ts[u][i := v]], x, ns, p, lo', hi')
  {
    var ts' := ts[u := ts[u][i := v]];
    forall j, lv | 0 <= j < |ns| && 0 <= lv < |ts'[j]|
      ensures ts'[j][lv] ==
                if lo' < lv <= hi' then Fwd(InsertAt(ns, p, x), Shift(j, p), lv) else Fwd(ns, j, lv)
    {
      if j != u || lv != i {
        assert ts'[j][lv] == ts[j][lv];
        assert lv != i ==> (lo < lv <= hi <==> lo' < lv <= hi');
      }
    }
  }

  /** After the last step, with the levels above x's tower untouched, the
      contents are those of a fully linked chain with x spliced in at p. */
  lemma SplicedDone(hs: seq<Node?>, xs: seq<Node?>, ts: seq<seq<Node?>>, x: Node, ns: seq<Node>, p: int)
    requires 0 <= p <= |ns| && SnapSized(hs, xs, ts, x, ns)
    requires SplicedSnap(hs, xs, ts, x, ns, p, -1, x.nodeLevel)
    ensures LinkedSnap(hs, InsertAt(ts, p, xs), InsertAt(ns, p, x))
  {
    var ns' := InsertAt(ns, p, x);
    var ts' := InsertAt(ts, p, xs);
    forall lv | x.nodeLevel < lv <= MaxLevel
      ensures Fwd(ns', -1, lv) == Fwd(ns, -1, lv)
    {
      SpliceAbove(ns, p, x, lv);
    }
    forall j, lv | 0 <= j < |ns'| && 0 <= lv < |ts'[j]|
      ensures ts'[j][lv] == Fwd(ns', j, lv)
    {
      if lv > x.nodeLevel {
        SpliceAbove(ns, p, x, lv);
      }
      if j > p {
        assert Shift(j - 1, p) == j;
      }
    }
  }

  /** The towers of a chain with x spliced in are those of the chain with
      x's spliced in at the same place. */
  lemma SnapInsertAt(ns: seq<Node>, p: int, x: Node)
    requires 0 <= p <= |ns|
    ensures Snap(InsertAt(ns, p, x)) == InsertAt(Snap(ns), p, x.forward[..])
  {
  }

  /** The shape of a list with top level `level` and level-0 chain ns, apart
      from where its pointers lead: towers as Towered says, every node's
      tower between levels 1 and `level`, keys strictly increasing along the
      chain, and the top level in use unless it is 0. */
  ghost predicate ChainShape(head: Node, ns: seq<Node>, level: int)
  {
    Towered(head, ns) &&
    0 <= level <= MaxLevel &&
    (forall j :: 0 <= j < |ns| ==> 1 <= ns[j].nodeLevel <= level) &&
    StrictlySorted(EntriesOf(ns)) &&
    (level == 0 || Fwd(ns, -1, level) != null)
  }

  /** Splicing a fresh node with an absent key in where the key belongs
      keeps the shape, with the top level raised to the new tower's if it
      is taller, and inserts its entry into the entries. */
  lemma ChainShapeIns(head: Node, ns: seq<Node>, level: int, x: Node)
    requires ChainShape(head, ns, level)
    requires !HasKey(EntriesOf(ns), x.key)
    requires 1 <= x.nodeLevel <= MaxLevel && x.forward.Length == x.nodeLevel + 1
    requires x.forward != head.forward && x.forward !in TowerArrays(ns)
    ensures var ns' := InsertAt(ns, Pos(EntriesOf(ns), x.key), x);
            ChainShape(head, ns', if level < x.nodeLevel then x.nodeLevel else level) &&
            EntriesOf(ns') == InsertSorted(EntriesOf(ns), x.key, x.value) &&
            TowerArrays(ns') == TowerArrays(ns) + {x.forward}
  {
    var p := Pos(EntriesOf(ns), x.key);
    var level' := if level < x.nodeLevel then x.nodeLevel else level;
    ToweredIns(head, ns, p, x);
    EntriesOfIns(ns, p, x);
    InsertSortedSorted(EntriesOf(ns), x.key, x.value);
    LevelsIns(ns, p, x, level, level');
    TopIns(ns, p, x, level, level');
  }

  /** Every tower of the chain with x spliced in lies between levels 1 and
      the raised top level. */
  lemma LevelsIns(ns: seq<Node>, p: int, x: Node, level: int, level': int)
    requires 0 <= p <= |ns| && 1 <= x.nodeLevel <= level' && level <= level'
    requires forall j :: 0 <= j < |ns| ==> 1 <= ns[j].nodeLevel <= level
    ensures forall j :: 0 <= j < |ns| + 1 ==> 1 <= InsertAt(ns, p, x)[j].nodeLevel <= level'
  {
  }

  /** The raised top level is in use in the chain with x spliced in. */
  lemma TopIns(ns: seq<Node>, p: int, x: Node, level: int, level': int)
    requires 0 <= p <= |ns| && 1 <= x.nodeLevel <= MaxLevel && 0 <= level
    requires level' == if level < x.nodeLevel then x.nodeLevel else level
    requires level == 0 || Fwd(ns, -1, level) != null
    ensures level' == 0 || Fwd(InsertAt(ns, p, x), -1, level') != null
  {
    FwdInsert(ns, p, x, -1, level');
  }

  /** EntriesOf commutes with removal. */
  lemma EntriesOfDel(ns: seq<Node>, p: int)
    requires 0 <= p < |ns|
    ensures EntriesOf(RemoveAt(ns, p)) == RemoveAt(EntriesOf(ns), p)
  {
  }

  /** Removing the node at p keeps the towers' shape, and its tower leaves
      the set of tower arrays. */
  lemma ToweredDel(head: Node, ns: seq<Node>, p: int)
    requires Towered(head, ns) && 0 <= p < |ns|
    ensures Towered(head, RemoveAt(ns, p))
    ensures TowerArrays(RemoveAt(ns, p)) == TowerArrays(ns) - {ns[p].forward}
  {
    var ms := RemoveAt(ns, p);
    forall j | 0 <= j < |ms|
      ensures ms[j] == ns[Shift(j, p)]
    {
    }
    forall j | 0 <= j < |ms|
      ensures TowerIndex(ms, ms[j].forward) == j
    {
      TowerIndexOf(ms, j);
    }
    forall a | a in TowerArrays(ns) - {ns[p].forward}
      ensures a in TowerArrays(ms)
    {
      var n :| n in ns && n.forward == a;
      var j :| 0 <= j < |ns| && ns[j] == n;
      RemoveAtMembers(ns, p);
      assert ns[j] in ms;
    }
  }

  /** The Last node before q depends only on the nodes before q. */
  lemma {:induction false} LastPrefix(ns: seq<Node>, ms: seq<Node>, lv: int, q: int)
    requires 0 <= q <= |ns| && q <= |ms|
    requires forall m :: 0 <= m < q ==> ms[m] == ns[m]
    ensures Last(ms, lv, q) == Last(ns, lv, q)
    decreases q
  {
    if q > 0 {
      LastPrefix(ns, ms, lv, q - 1);
    }
  }

  /** Before the first step of remove, with x still linked in at p of the
      chain ns, every level x reaches is spliced. */
  lemma UnsplicedStart(hs: seq<Node?>, xs: seq<Node?>, ts: seq<seq<Node?>>, x: Node, ns: seq<Node>, p: int)
    requires 0 <= p <= |ns| && SnapSized(hs, xs, ts, x, ns)
    requires LinkedSnap(hs, InsertAt(ts, p, xs), InsertAt(ns, p, x))
    ensures SplicedSnap(hs, xs, ts, x, ns, p, -1, x.nodeLevel)
  {
    var ns' := InsertAt(ns, p, x);
    var ts' := InsertAt(ts, p, xs);
    forall lv | x.nodeLevel < lv <= MaxLevel
      ensures Fwd(ns', -1, lv) == Fwd(ns, -1, lv)
    {
      SpliceAbove(ns, p, x, lv);
    }
    forall j, lv | 0 <= j < |ns| && 0 <= lv < |ts[j]|
      ensures ts[j][lv] == if -1 < lv <= x.nodeLevel then Fwd(ns', Shift(j, p), lv) else Fwd(ns, j, lv)
    {
      assert ts'[Shift(j, p)] == ts[j];
      if lv > x.nodeLevel {
        SpliceAbove(ns, p, x, lv);
      }
    }
    assert ts'[p] == xs;
  }

  /** One step of the unlink loop of remove, at level i, on the tower
      contents: x's predecessor u (the head for -1) takes over x's level-i
      pointer. */
  lemma UnspliceStep(hs: seq<Node?>, xs: seq<Node?>, ts: seq<seq<Node?>>,
                     x: Node, ns: seq<Node>, p: int, u: int, i: int)
    requires 0 <= p <= |ns| && SnapSized(hs, xs, ts, x, ns)
    requires 0 <= i <= x.nodeLevel <= MaxLevel && Brackets(ns, u, i, p)
    requires SplicedSnap(hs, xs, ts, x, ns, p, -1, i)
    ensures u == -1 ==> SplicedSnap(hs[i := xs[i]], xs, ts, x, ns, p, -1, i - 1)
    ensures u != -1 ==> SplicedSnap(hs, xs, ts[u := ts[u][i := xs[i]]], x, ns, p, -1, i - 1)
  {
    SpliceAt(ns, p, x, u, i);
    var ns' := InsertAt(ns, p, x);
    if u == -1 {
      HeadSet(hs, x, ns, p, -1, i, -1, i - 1, i, xs[i]);
      TowersStill(ts, x, ns, p, -1, i, -1, i - 1, i);
    } else {
      assert Shift(u, p) == u;
      assert Fwd(ns', Shift(-1, p), i) == Fwd(ns, -1, i);
      HeadStill(hs, x, ns, p, -1, i, -1, i - 1, i);
      TowersSet(ts, x, ns, p, -1, i, -1, i - 1, u, i, xs[i]);
    }
  }

  /** The height of the tallest tower of ns, 0 when ns is empty. */
  ghost function Height(ns: seq<Node>): (h: int)
    ensures 0 <= h
    ensures forall j :: 0 <= j < |ns| ==> ns[j].nodeLevel <= h
    ensures h == 0 || exists j :: 0 <= j < |ns| && ns[j].nodeLevel == h
    decreases |ns|
  {
    if ns == [] then 0
    else
      var init := ns[..|ns| - 1];
      var h := Height(init);
      assert forall j :: 0 <= j < |init| ==> init[j] == ns[j];
      if ns[|ns| - 1].nodeLevel > h then ns[|ns| - 1].nodeLevel else h
  }

  /** A top level that every tower stays within, and whose head pointer is
      in use unless it is 0, is the height of the tallest tower. */
  lemma TopIsHeight(ns: seq<Node>, level: int)
    requires 0 <= level
    requires forall j :: 0 <= j < |ns| ==> 1 <= ns[j].nodeLevel <= level
    requires level == 0 || Fwd(ns, -1, level) != null
    ensures level == Height(ns)
  {
    if level > 0 {
      var s := Succ(ns, -1, level);
      assert ns[s].nodeLevel >= level;
    }
  }

  /** Unlinking the node at p keeps the shape, except that the top level
      may fall out of use, and removes its entry from the entries. */
  lemma ChainShapeDel(head: Node, ns: seq<Node>, level: int, p: int)
    requires ChainShape(head, ns, level) && 0 <= p < |ns|
    ensures var ms := RemoveAt(ns, p);
            Towered(head, ms) &&
            (forall j :: 0 <= j < |ms| ==> 1 <= ms[j].nodeLevel <= level) &&
            StrictlySorted(EntriesOf(ms)) &&
            EntriesOf(ms) == RemoveKey(EntriesOf(ns), ns[p].key) &&
            TowerArrays(ms) == TowerArrays(ns) - {ns[p].forward}
  {
    var ms := RemoveAt(ns, p);
    ToweredDel(head, ns, p);
    EntriesOfDel(ns, p);
    assert EntriesOf(ns)[p].key == ns[p].key;
    PosOfKey(EntriesOf(ns), p);
    RemoveKeySorted(EntriesOf(ns), ns[p].key);
    forall j | 0 <= j < |ms|
      ensures 1 <= ms[j].nodeLevel <= level
    {
      assert ms[j] == ns[Shift(j, p)];
    }
  }
}
