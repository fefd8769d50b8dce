/** The skip list: a head node whose tower spans every level, a current top
    level and an element count. Every pointer of every tower is pinned by
    Valid() to the node that Succ says it must hold, so the level-0 chain is
    the sorted list of live entries and each higher level skips over nodes
    whose towers are too short. */
module SkipLists {
  import opened StringOrder
  import opened Entries
  import opened Towers
  import opened Sequences
  import opened Snapshots

  class SkipList {
    /** _skip_list_level: the highest level index in use. */
    var level: int
    /** _element_count */
    var count: int
    /** _head: a sentinel whose key and value are never read. */
    const head: Node
    /** The nodes of the level-0 chain, in chain order. */
    ghost var nodes: seq<Node>
    ghost var Repr: set<object>

    ghost predicate Valid()
      reads this, Repr
      ensures Valid() ==> this in Repr
    {
      this in Repr && ValidAt(level)
    }

    /** Valid() with the top level taken to be L: what holds of the list
        between raising its level and linking the new node in. */
    ghost predicate ValidAt(L: int)
      reads this`nodes, this`count, this`Repr, Repr - {this}
    {
      head in Repr && head.forward in Repr && TowerArrays(nodes) <= Repr &&
      count == |nodes| &&
      ChainShape(head, nodes, L) &&
      LinkedBetween(head, nodes, 0, MaxLevel)
    }

    /** The key/value pairs of the level-0 chain, in chain order. */
    ghost function Entries(): seq<Entry>
      reads this`nodes
    {
      EntriesOf(nodes)
    }

    /** The node at position k of the level-0 chain, the head for -1. */
    ghost function NodeAt(k: int): Node
      requires -1 <= k < |nodes|
      reads this`nodes
    {
      NodeOr(head, nodes, k)
    }

    /** An empty list: level 0, no elements, a head with MaxLevel + 1 null slots. */
    constructor ()
      ensures Valid() && fresh(Repr)
      ensures Entries() == [] && level == 0
    {
      level := 0;
      count := 0;
      head := new Node("", "", MaxLevel);
      nodes := [];
      new;
      Repr := {this, head, head.forward};
    }

    /** The top-down traversal shared by insert and remove: for each level
        from the current one down to 0, advance while the next key is below
        `key`, and record where the walk stopped. The node recorded for a
        level is the last one on that level before the position Pos where
        `key` belongs; slots above the current level stay null. */
    method FindPredecessors(key: string) returns (update: array<Node?>)
      requires Valid()
      ensures fresh(update) && update.Length == MaxLevel + 1
      ensures update[..] == Recorded(head, nodes, level, Pos(Entries(), key), -1)
    {
      update := new Node?[MaxLevel + 1](_ => null);
      Descend(head, nodes, level, key, update);
    }

    /** On level 0 every node is on the walk, so the level-0 pointer of the
        node the traversal records there leads to the node at Pos. */
    lemma NextOnLevelZero(key: string)
      requires Valid()
      ensures var u := Last(nodes, 0, Pos(Entries(), key));
              0 < NodeAt(u).forward.Length && NodeAt(u).forward[0] == At(nodes, Pos(Entries(), key))
    {
      var u := Last(nodes, 0, Pos(Entries(), key));
      assert Succ(nodes, u, 0) == u + 1;
      if u != -1 {
        assert nodes[u] in nodes;
      }
    }

    /** search: true exactly when the key is in the list; changes nothing. */
    method Search(key: string) returns (found: bool)
      requires Valid()
      ensures found == HasKey(Entries(), key)
    {
      found := Seek(head, nodes, level, key);
    }

    /** size: the number of live entries. */
    method Size() returns (n: int)
      requires Valid()
      ensures n == |Entries()|
    {
      n := count;
    }
  
    /** insert: a key already present is rejected and nothing changes; an
        absent key gets a fresh node whose tower has randomLevel + 1 slots,
        spliced in on levels 0..randomLevel after the recorded predecessors,
        and the count grows by one. randomLevel stands for the value
        get_random_level returns. */
    method Insert(key: string, value: string, randomLevel: int) returns (inserted: bool)
      requires Valid()
      requires 1 <= randomLevel <= MaxLevel
      modifies Repr
      ensures Valid()
      ensures inserted == !HasKey(old(Entries()), key)
      ensures Entries() == InsertSorted(old(Entries()), key, value)
      ensures !inserted ==>
                nodes == old(nodes) && level == old(level) && count == old(count) && Repr == old(Repr)
      ensures inserted ==> count == old(count) + 1
      ensures inserted ==> level == if old(level) < randomLevel then randomLevel else old(level)
      ensures inserted ==>
                var p := Pos(old(Entries()), key);
                |nodes| == |old(nodes)| + 1 && fresh(nodes[p]) && fresh(nodes[p].forward) &&
                nodes[p].nodeLevel == randomLevel && nodes == InsertAt(old(nodes), p, nodes[p]) &&
                Repr == old(Repr) + {nodes[p], nodes[p].forward}
    {
      var update := FindPredecessors(key);
      NextOnLevelZero(key);
      PosFinds(Entries(), key);
      var current := update[0].forward[0];
      if current != null && current.key == key {
        return false;
      }
      AddNode(key, value, randomLevel, update);
      inserted := true;
    }

    /** The part of insert after the duplicate check: raise the list's
        level if the new tower is taller (recording the head as predecessor
        on the new levels), then splice a fresh node in. */
    method AddNode(key: string, value: string, randomLevel: int, update: array<Node?>)
      requires Valid()
      requires 1 <= randomLevel <= MaxLevel
      requires !HasKey(Entries(), key)
      requires update !in Repr && update.Length == MaxLevel + 1
      requires update[..] == Recorded(head, nodes, level, Pos(Entries(), key), -1)
      modifies Repr, update
      ensures Valid()
      ensures Entries() == InsertSorted(old(Entries()), key, value)
      ensures count == old(count) + 1
      ensures level == if old(level) < randomLevel then randomLevel else old(level)
      ensures var p := Pos(old(Entries()), key);
                |nodes| == |old(nodes)| + 1 && fresh(nodes[p]) &&
                nodes[p].nodeLevel == randomLevel && nodes == InsertAt(old(nodes), p, nodes[p]) &&
                fresh(nodes[p].forward) && Repr == old(Repr) + {nodes[p], nodes[p].forward}
    {
      ghost var L := level;
      ghost var p := Pos(Entries(), key);
      RaiseLevel(randomLevel, update, p);
      var x := new Node(key, value, randomLevel);
      Splice(x, update, p, L);
    }

    /** Splices the fresh node x in at position p of the level-0 chain, on
        every level its tower reaches, and accounts for it. On entry the
        list's level has already been raised to cover x's tower. */
    method Splice(x: Node, update: array<Node?>, ghost p: int, ghost L: int)
      requires this in Repr && ValidAt(L)
      requires !HasKey(EntriesOf(nodes), x.key) && p == Pos(EntriesOf(nodes), x.key)
      requires 1 <= x.nodeLevel <= MaxLevel && x.forward.Length == x.nodeLevel + 1
      requires x.forward !in Repr
      requires level == if L < x.nodeLevel then x.nodeLevel else L
      requires update.Length == MaxLevel + 1
      requires update !in Repr && update != x.forward
      requires update[..] == Recorded(head, nodes, level, p, -1)
      modifies this, head.forward, x.forward, TowerArrays(nodes)
      ensures Valid()
      ensures Repr == old(Repr) + {x, x.forward} && level == old(level) && count == old(count) + 1
      ensures nodes == InsertAt(old(nodes), p, x)
      ensures Entries() == InsertSorted(old(Entries()), x.key, x.value)
    {
      ghost var ns := nodes;
      nodes := InsertAt(ns, p, x);
      count := count + 1;
      Repr := Repr + {x, x.forward};
      LinkTower(head, x, update, ns, p);
      ValidAfterAdd(ns, L, x);
    }

    /** When the new tower is taller than the list, the list's level rises
        to it and the head becomes the recorded predecessor on the new
        levels, where no node of the list reaches. Afterwards update[lv], for
        every level the new tower reaches, is the last node on level lv
        before position p. */
    method RaiseLevel(randomLevel: int, update: array<Node?>, ghost p: int)
      requires ChainShape(head, nodes, level) && 0 <= p <= |nodes|
      requires 1 <= randomLevel <= MaxLevel
      requires update.Length == MaxLevel + 1
      requires update[..] == Recorded(head, nodes, level, p, -1)
      modifies this`level, update
      ensures level == if old(level) < randomLevel then randomLevel else old(level)
      ensures update[..] == Recorded(head, nodes, level, p, -1)
    {
      if randomLevel > level {
        var i := level + 1;
        while i <= randomLevel
          modifies update
          invariant level + 1 <= i <= randomLevel + 1
          invariant update[..] == Recorded(head, nodes, i - 1, p, -1)
        {
          RecordedRaise(head, nodes, level, p, i);
          update[i] := head;
          i := i + 1;
        }
        level := randomLevel;
      }
    }

    /** remove: a present key's node is unlinked on every level its tower
        reaches, from the top down, the count drops by one, and the list's
        level is lowered while the head's pointer on it is null; an absent
        key changes nothing. Either way the level is afterwards the height
        of the tallest tower. */
    method Remove(key: string) returns (removed: bool)
      requires Valid()
      modifies Repr
      ensures Valid()
      ensures removed == HasKey(old(Entries()), key)
      ensures Entries() == RemoveKey(old(Entries()), key)
      ensures !removed ==>
                nodes == old(nodes) && level == old(level) && count == old(count) && Repr == old(Repr)
      ensures removed ==>
                var p := Pos(old(Entries()), key);
                p < |old(nodes)| && nodes == RemoveAt(old(nodes), p) && count == old(count) - 1 &&
                Repr == old(Repr) - {old(nodes)[p], old(nodes)[p].forward}
      ensures level == Height(nodes)
    {
      var update := FindPredecessors(key);
      NextOnLevelZero(key);
      PosFinds(Entries(), key);
      var current := update[0].forward[0];
      if current != null && current.key == key {
        DeleteNode(current, update, Pos(Entries(), key));
        removed := true;
      } else {
        TopIsHeight(nodes, level);
        removed := false;
      }
    }

    /** The part of remove after the key is found at position p: unlink x
        on every level its tower reaches, forget it, and lower the level
        while it is above 0 and the head's pointer on it is null. */
    method DeleteNode(x: Node, update: array<Node?>, ghost p: int)
      requires Valid()
      requires 0 <= p < |nodes| && x == nodes[p] && p == Pos(Entries(), x.key)
      requires update !in Repr && update.Length == MaxLevel + 1
      requires update[..] == Recorded(head, nodes, level, p, -1)
      modifies this, head.forward, TowerArrays(nodes)
      ensures Valid()
      ensures nodes == RemoveAt(old(nodes), p) && count == old(count) - 1
      ensures Repr == old(Repr) - {x, x.forward}
      ensures Entries() == RemoveKey(old(Entries()), x.key)
      ensures level == Height(nodes)
    {
      ghost var ns, L, R := nodes, level, Repr;
      Forget(p);
      var top := Detach(head, x, update, ns, p, level);
      ValidAfterDelete(ns, p, L, R, top);
      SetLevel(top);
    }

    /** The bookkeeping of remove: the node at position p leaves the chain
        and the footprint, and the count drops by one. */
    method Forget(ghost p: int)
      requires 0 <= p < |nodes|
      modifies this`nodes, this`count, this`Repr
      ensures nodes == RemoveAt(old(nodes), p) && count == old(count) - 1
      ensures Repr == old(Repr) - {old(nodes)[p], old(nodes)[p].forward}
    {
      Repr := Repr - {nodes[p], nodes[p].forward};
      nodes := RemoveAt(nodes, p);
      count := count - 1;
    }

    /** What remove leaves behind once x is unlinked and forgotten is a
        valid list without x's entry, if its top level is taken to be top. */
    lemma ValidAfterDelete(ns: seq<Node>, p: int, L: int, R: set<object>, top: int)
      requires ChainShape(head, ns, L) && 0 <= p < |ns|
      requires this in R && head in R && head.forward in R && TowerArrays(ns) <= R
      requires Repr == R - {ns[p], ns[p].forward}
      requires nodes == RemoveAt(ns, p) && count == |nodes|
      requires ChainShape(head, nodes, top) && LinkedBetween(head, nodes, 0, MaxLevel)
      ensures this in Repr && ValidAt(top)
      ensures Entries() == RemoveKey(EntriesOf(ns), ns[p].key)
    {
      Apart(ns[p]);
      NodeApart(head, ns[p]);
      NodeApart(ns[p], head);
      assert ns[p] in ns;
      assert this in Repr && head in Repr && head.forward in Repr;
      ChainShapeDel(head, ns, L, p);
      assert TowerArrays(nodes) <= Repr;
    }

    /** Lowers (or keeps) the level to top, at which the list is valid. */
    method SetLevel(top: int)
      requires this in Repr && ValidAt(top)
      modifies this`level
      ensures Valid() && level == top
    {
      level := top;
    }

    /** The list object is neither a node nor a tower array. */
    lemma Apart(n: Node)
      ensures (this as object) != n && (this as object) != n.forward
    {
    }

    /** What AddNode leaves behind is a valid list holding the new entry. */
    lemma ValidAfterAdd(ns: seq<Node>, L: int, x: Node)
      requires ChainShape(head, ns, L) && !HasKey(EntriesOf(ns), x.key)
      requires 1 <= x.nodeLevel <= MaxLevel && x.forward.Length == x.nodeLevel + 1
      requires x.forward != head.forward && x.forward !in TowerArrays(ns)
      requires this in Repr && head in Repr && head.forward in Repr && x.forward in Repr
      requires TowerArrays(ns) <= Repr
      requires nodes == InsertAt(ns, Pos(EntriesOf(ns), x.key), x) && count == |ns| + 1
      requires level == if L < x.nodeLevel then x.nodeLevel else L
      requires LinkedBetween(head, nodes, 0, MaxLevel)
      ensures Valid()
      ensures Entries() == InsertSorted(EntriesOf(ns), x.key, x.value)
    {
      ChainShapeIns(head, ns, L, x);
    }

    /** get_random_level: start at 1, go up one level for every draw that
        promotes, stop at the first draw that does not, and cap the result
        at MaxLevel. draw(n) stands for the n-th value random() returns;
        flips counts the draws that promoted. */
    static method RandomLevel(draw: nat -> nat) returns (lv: int, ghost flips: nat)
      requires exists n: nat :: !Promotes(draw(n))
      ensures 1 <= lv <= MaxLevel
      ensures forall k: nat :: k < flips ==> Promotes(draw(k))
      ensures !Promotes(draw(flips))
      ensures lv == if flips + 1 < MaxLevel then flips + 1 else MaxLevel
    {
      ghost var stop: nat :| !Promotes(draw(stop));
      lv := 1;
      var k: nat := 0;
      while Promotes(draw(k))
        invariant lv == k + 1 && k <= stop
        invariant forall j: nat :: j < k ==> Promotes(draw(j))
        decreases stop - k
      {
        lv := lv + 1;
        k := k + 1;
      }
      flips := k;
      lv := if lv < MaxLevel then lv else MaxLevel;
    }

    /** dump_file: the text written, one `key:value` line per node of the
        level-0 chain, is the dump of the list's entries. */
    method Dump() returns (text: string)
      requires Valid()
      ensures text == DumpText(Entries())
    {
      ZeroLinks(head, nodes);
      text := WriteChain(head, nodes);
    }

    /** load_file: every line of the text is cut into a key and a value,
        which carry over to the next line when a line is invalid, and the
        pair is inserted unless either half is empty. text stands for the
        file's contents and levels(n) for what get_random_level returns
        while line n is inserted. */
    method Load(text: string, levels: nat -> int)
      requires Valid()
      requires forall n: nat :: 1 <= levels(n) <= MaxLevel
      modifies Repr
      ensures Valid() && fresh(Repr - old(Repr))
      ensures Entries() == LoadEntries(old(Entries()), Lines(text), [], [])
    {
      var lines := Lines(text);
      var key: string, value: string := [], [];
      var i := 0;
      while i < |lines|
        invariant 0 <= i <= |lines|
        invariant Valid() && fresh(Repr - old(Repr))
        invariant LoadEntries(Entries(), lines[i..], key, value) ==
                  LoadEntries(old(Entries()), lines, [], [])
      {
        assert lines[i..][0] == lines[i] && lines[i..][1..] == lines[i + 1..];
        key, value := LoadLine(lines[i], key, value, levels(i));
        i := i + 1;
      }
    }

    /** One line of load_file: cut it, then insert the pair unless either
        half is empty. */
    method LoadLine(line: string, key: string, value: string, randomLevel: int)
      returns (key': string, value': string)
      requires Valid() && 1 <= randomLevel <= MaxLevel
      modifies Repr
      ensures Valid() && fresh(Repr - old(Repr))
      ensures (key', value') == KeyValueFromLine(line, key, value)
      ensures Entries() ==
                if key' == [] || value' == [] then old(Entries())
                else InsertSorted(old(Entries()), key', value')
    {
      var kv := KeyValueFromLine(line, key, value);
      key', value' := kv.0, kv.1;
      if key' != [] && value' != [] {
        var _ := Insert(key', value', randomLevel);
      }
    }
  }

  /** The test random() & 0xFFFF < P * 0xFFFF with P = 0.5: the low 16
      bits of a draw, compared as a double against 32767.5. */
  predicate Promotes(r: nat)
  {
    2 * (r % 0x1_0000) < 0xFFFF
  }

  /** Level 0 of a linked chain: the head points to the first node and
      every node to the next one, the last to null. */
  ghost predicate LinkedAtZero(head: Node, ns: seq<Node>)
    reads head.forward, TowerArrays(ns)
  {
    head.forward.Length > 0 && head.forward[0] == At(ns, 0) &&
    forall j :: 0 <= j < |ns| ==> ns[j].forward.Length > 0 && ns[j].forward[0] == At(ns, j + 1)
  }

  /** Every node's tower reaches level 0, so there Succ is the next position. */
  lemma ZeroLinks(head: Node, ns: seq<Node>)
    requires Towered(head, ns) && LinkedBetween(head, ns, 0, MaxLevel)
    ensures LinkedAtZero(head, ns)
  {
    assert Succ(ns, -1, 0) == 0;
    forall j | 0 <= j < |ns|
      ensures ns[j].forward.Length > 0 && ns[j].forward[0] == At(ns, j + 1)
    {
      assert Succ(ns, j, 0) == j + 1;
    }
  }

  /** The walk of dump_file: from the head along level-0 pointers to null,
      writing each node's line. */
  method WriteChain(head: Node, ghost ns: seq<Node>) returns (text: string)
    requires LinkedAtZero(head, ns)
    ensures text == DumpText(EntriesOf(ns))
  {
    text := [];
    var node := head.forward[0];
    ghost var k := 0;
    while node != null
      invariant 0 <= k <= |ns| && node == At(ns, k)
      invariant text + DumpText(EntriesOf(ns)[k..]) == DumpText(EntriesOf(ns))
      decreases |ns| - k
    {
      DumpTextFrom(EntriesOf(ns), k);
      text := text + Line(Entry(node.key, node.value)) + ['\n'];
      node := node.forward[0];
      k := k + 1;
    }
    assert EntriesOf(ns)[k..] == [];
  }

  /** The splice loop of insert: from x's top level down to 0, x takes over
      its predecessor's pointer and the predecessor then points to x. The
      predecessor recorded for level lv is update[lv], at position ui[lv] of
      the old chain ns (-1 for the head); x goes in at position p. */
  method LinkTower(head: Node, x: Node, update: array<Node?>, ghost ns: seq<Node>, ghost p: int)
    requires Towered(head, ns) && 0 <= p <= |ns|
    requires 0 <= x.nodeLevel <= MaxLevel && x.forward.Length == x.nodeLevel + 1
    requires x.forward != head.forward && x.forward !in TowerArrays(ns)
    requires update.Length == MaxLevel + 1
    requires update != head.forward && update != x.forward && update !in TowerArrays(ns)
    requires forall lv :: 0 <= lv <= x.nodeLevel ==> update[lv] == NodeOr(head, ns, Last(ns, lv, p))
    requires LinkedBetween(head, ns, 0, MaxLevel)
    modifies head.forward, x.forward, TowerArrays(ns)
    ensures LinkedBetween(head, InsertAt(ns, p, x), 0, MaxLevel)
  {
    LinkedToSnap(head, ns);
    SplicedStart(head.forward[..], x.forward[..], Snap(ns), x, ns, p);
    var i := x.nodeLevel;
    while i >= 0
      invariant -1 <= i <= x.nodeLevel
      invariant SplicedSnap(head.forward[..], x.forward[..], Snap(ns), x, ns, p, i, x.nodeLevel)
    {
      LinkStep(head, x, update[i], ns, p, i);
      i := i - 1;
    }
    SplicedDone(head.forward[..], x.forward[..], Snap(ns), x, ns, p);
    SnapInsertAt(ns, p, x);
    ToweredIns(head, ns, p, x);
    SnapToLinked(head, InsertAt(ns, p, x));
  }

  /** One level of the splice loop: x takes over the pointer of pred, the
      last node before position p on level i, and pred then points to x;
      level i is spliced from then on. */
  method LinkStep(head: Node, x: Node, pred: Node, ghost ns: seq<Node>, ghost p: int, i: int)
    requires Towered(head, ns) && 0 <= p <= |ns|
    requires 0 <= i <= x.nodeLevel <= MaxLevel && x.forward.Length == x.nodeLevel + 1
    requires x.forward != head.forward && x.forward !in TowerArrays(ns)
    requires pred == NodeOr(head, ns, Last(ns, i, p))
    requires SplicedSnap(head.forward[..], x.forward[..], Snap(ns), x, ns, p, i, x.nodeLevel)
    modifies head.forward, x.forward, TowerArrays(ns)
    ensures SplicedSnap(head.forward[..], x.forward[..], Snap(ns), x, ns, p, i - 1, x.nodeLevel)
  {
    ghost var hs, xs, ts := head.forward[..], x.forward[..], Snap(ns);
    ghost var u := Last(ns, i, p);
    SpliceStep(hs, xs, ts, x, ns, p, u, i);
    LinkLevel(head, x, pred, ns, u, i);
  }

  /** The unlink loop of remove: from the top of the tower of x down to 0,
      x's predecessor on each level (update[lv]) takes over x's pointer
      there. ms is the chain without x, and x sat at position p; on entry
      every level of x's tower is still spliced. */
  method UnlinkTower(head: Node, x: Node, update: array<Node?>, ghost ms: seq<Node>, ghost p: int)
    requires Towered(head, ms) && 0 <= p <= |ms|
    requires 0 <= x.nodeLevel <= MaxLevel && x.forward.Length == x.nodeLevel + 1
    requires x.forward != head.forward && x.forward !in TowerArrays(ms)
    requires update.Length == MaxLevel + 1 && update != head.forward && update !in TowerArrays(ms)
    requires forall lv :: 0 <= lv <= x.nodeLevel ==> update[lv] == NodeOr(head, ms, Last(ms, lv, p))
    requires SplicedSnap(head.forward[..], x.forward[..], Snap(ms), x, ms, p, -1, x.nodeLevel)
    modifies head.forward, TowerArrays(ms)
    ensures LinkedBetween(head, ms, 0, MaxLevel)
  {
    var i := x.nodeLevel;
    while i >= 0
      invariant -1 <= i <= x.nodeLevel
      invariant SplicedSnap(head.forward[..], x.forward[..], Snap(ms), x, ms, p, -1, i)
    {
      UnlinkStep(head, x, update[i], ms, p, i);
      i := i - 1;
    }
    SnapToLinked(head, ms);
  }

  /** One level of the unlink loop: pred, the last node before x on level
      i, takes over x's pointer there, and level i is no longer spliced. */
  method UnlinkStep(head: Node, x: Node, pred: Node, ghost ms: seq<Node>, ghost p: int, i: int)
    requires Towered(head, ms) && 0 <= p <= |ms|
    requires 0 <= i <= x.nodeLevel <= MaxLevel && x.forward.Length == x.nodeLevel + 1
    requires x.forward != head.forward && x.forward !in TowerArrays(ms)
    requires pred == NodeOr(head, ms, Last(ms, i, p))
    requires SplicedSnap(head.forward[..], x.forward[..], Snap(ms), x, ms, p, -1, i)
    modifies head.forward, TowerArrays(ms)
    ensures SplicedSnap(head.forward[..], x.forward[..], Snap(ms), x, ms, p, -1, i - 1)
  {
    ghost var hs, xs, ts := head.forward[..], x.forward[..], Snap(ms);
    ghost var u := Last(ms, i, p);
    UnspliceStep(hs, xs, ts, x, ms, p, u, i);
    UnlinkLevel(head, x, pred, ms, u, i);
  }

  /** Unlinks x, at position p of the chain ns, on every level its tower
      reaches; update holds the predecessors the traversal recorded in a
      list of top level L. */
  method UnlinkNode(head: Node, x: Node, update: array<Node?>, ghost ns: seq<Node>, ghost p: int, ghost L: int)
    requires Towered(head, ns) && 0 <= p < |ns| && x == ns[p] && x.nodeLevel <= L
    requires update.Length == MaxLevel + 1 && update != head.forward && update !in TowerArrays(ns)
    requires update[..] == Recorded(head, ns, L, p, -1)
    requires LinkedBetween(head, ns, 0, MaxLevel)
    modifies head.forward, TowerArrays(RemoveAt(ns, p))
    ensures LinkedBetween(head, RemoveAt(ns, p), 0, MaxLevel)
  {
    UnlinkStart(head, ns, p, L, update[..]);
    ToweredDel(head, ns, p);
    UnlinkTower(head, x, update, RemoveAt(ns, p), p);
  }

  /** Everything remove does to the heap once the key is found at position
      p of the chain ns: unlink x on every level its tower reaches, then
      lower the top level L while it is above 0 and the head's pointer on
      it is null. The level returned is the height of the tallest tower
      left. */
  method Detach(head: Node, x: Node, update: array<Node?>, ghost ns: seq<Node>, ghost p: int, L: int)
    returns (top: int)
    requires ChainShape(head, ns, L) && 0 <= p < |ns| && x == ns[p]
    requires update.Length == MaxLevel + 1 && update != head.forward && update !in TowerArrays(ns)
    requires update[..] == Recorded(head, ns, L, p, -1)
    requires LinkedBetween(head, ns, 0, MaxLevel)
    modifies head.forward, TowerArrays(ns)
    ensures LinkedBetween(head, RemoveAt(ns, p), 0, MaxLevel)
    ensures top == Height(RemoveAt(ns, p)) && ChainShape(head, RemoveAt(ns, p), top)
  {
    ChainShapeDel(head, ns, L, p);
    UnlinkNode(head, x, update, ns, p, L);
    top := TopInUse(head, RemoveAt(ns, p), L);
  }

  /** The state before the unlink loop, on the tower contents: every
      level of x's tower is spliced into the chain without x, and the
      predecessors r records before p are the same in both chains. */
  lemma UnlinkStart(head: Node, ns: seq<Node>, p: int, L: int, r: seq<Node?>)
    requires Towered(head, ns) && 0 <= p < |ns| && LinkedBetween(head, ns, 0, MaxLevel)
    requires ns[p].nodeLevel <= L && r == Recorded(head, ns, L, p, -1)
    ensures var ms, x := RemoveAt(ns, p), ns[p];
            Towered(head, ms) && x.forward != head.forward && x.forward !in TowerArrays(ms) &&
            SplicedSnap(head.forward[..], x.forward[..], Snap(ms), x, ms, p, -1, x.nodeLevel) &&
            forall lv :: 0 <= lv <= x.nodeLevel ==> r[lv] == NodeOr(head, ms, Last(ms, lv, p))
  {
    var ms, x := RemoveAt(ns, p), ns[p];
    InsertRemove(ns, p);
    ToweredDel(head, ns, p);
    assert x.forward in TowerArrays(ns);
    LinkedToSnap(head, ns);
    SnapInsertAt(ms, p, x);
    UnsplicedStart(head.forward[..], x.forward[..], Snap(ms), x, ms, p);
    forall lv | 0 <= lv <= x.nodeLevel
      ensures r[lv] == NodeOr(head, ms, Last(ms, lv, p))
    {
      LastPrefix(ns, ms, lv, p);
    }
  }

  /** One step of the unlink loop, at level i: pred takes over x's level-i
      pointer. pred is the head (u = -1) or the node at position u of the
      chain ns, which does not hold x; no other tower changes. */
  method UnlinkLevel(head: Node, x: Node, pred: Node, ghost ns: seq<Node>, ghost u: int, i: int)
    requires Towered(head, ns)
    requires 0 <= i < x.forward.Length && x.forward != head.forward && x.forward !in TowerArrays(ns)
    requires -1 <= u < |ns| && pred == NodeOr(head, ns, u) && i < pred.forward.Length
    modifies pred.forward
    ensures head.forward[..] ==
              if u == -1 then old(head.forward[..])[i := x.forward[i]] else old(head.forward[..])
    ensures x.forward[..] == old(x.forward[..])
    ensures Snap(ns) ==
              if u == -1 then old(Snap(ns)) else old(Snap(ns))[u := old(Snap(ns))[u][i := x.forward[i]]]
  {
    ghost var ts := Snap(ns);
    if u != -1 {
      assert ns[u] in ns;
    }
    pred.forward[i] := x.forward[i];
    ghost var ts' := if u == -1 then ts else ts[u := ts[u][i := x.forward[i]]];
    forall j | 0 <= j < |ns|
      ensures ns[j].forward[..] == ts'[j]
    {
      assert ns[j] in ns;
    }
    assert Snap(ns) == ts';
  }

  /** The loop that ends remove: lower the top level while it is above 0
      and the head's pointer on it is null. Every tower of ns is within L
      on entry; the level found is the height of the tallest. */
  method TopInUse(head: Node, ghost ns: seq<Node>, L: int) returns (top: int)
    requires Towered(head, ns) && LinkedBetween(head, ns, 0, MaxLevel) && 0 <= L <= MaxLevel
    requires forall j :: 0 <= j < |ns| ==> 1 <= ns[j].nodeLevel <= L
    ensures 0 <= top <= L && top == Height(ns)
    ensures top == 0 || Fwd(ns, -1, top) != null
  {
    top := L;
    while top > 0 && head.forward[top] == null
      invariant 0 <= top <= L
      invariant forall j :: 0 <= j < |ns| ==> ns[j].nodeLevel <= top
    {
      top := top - 1;
    }
    TopIsHeight(ns, top);
  }

  /** One step of the splice loop, at level i: x takes over pred's level-i
      pointer and pred then points to x. pred is the head (u = -1) or the
      node at position u of the chain ns; no other tower changes. */
  method LinkLevel(head: Node, x: Node, pred: Node, ghost ns: seq<Node>, ghost u: int, i: int)
    requires Towered(head, ns)
    requires 0 <= i < x.forward.Length && x.forward != head.forward && x.forward !in TowerArrays(ns)
    requires -1 <= u < |ns| && pred == NodeOr(head, ns, u) && i < pred.forward.Length
    modifies pred.forward, x.forward
    ensures head.forward[..] == if u == -1 then old(head.forward[..])[i := x] else old(head.forward[..])
    ensures x.forward[..] == old(x.forward[..])[i := old(pred.forward[i])]
    ensures Snap(ns) == if u == -1 then old(Snap(ns)) else old(Snap(ns))[u := old(Snap(ns))[u][i := x]]
  {
    ghost var ts := Snap(ns);
    if u != -1 {
      assert ns[u] in ns;
    }
    x.forward[i] := pred.forward[i];
    pred.forward[i] := x;
    ghost var ts' := if u == -1 then ts else ts[u := ts[u][i := x]];
    forall j | 0 <= j < |ns|
      ensures ns[j].forward[..] == ts'[j]
    {
      assert ns[j] in ns;
    }
    assert Snap(ns) == ts';
  }

  /** The advance along one level that search, insert and remove all make:
      from `current`, at position c of the level-0 chain ns (-1 for the
      head), follow level-i pointers while the next key is below `key`. The
      walk stops at the last level-i node before where `key` belongs, and
      its level-i pointer is then the one Fwd names. */
  method Advance(head: Node, ghost ns: seq<Node>, key: string, i: int, current: Node, ghost c: int)
    returns (last: Node, ghost d: int)
    requires Towered(head, ns) && LinkedBetween(head, ns, 0, MaxLevel) && 0 <= i <= MaxLevel
    requires -1 <= c < |ns| && current == NodeOr(head, ns, c)
    requires c == -1 || (ns[c].nodeLevel >= i && Less(ns[c].key, key))
    ensures IsPred(ns, d, i, key) && last == NodeOr(head, ns, d)
    ensures i < last.forward.Length && last.forward[i] == Fwd(ns, d, i)
  {
    last, d := current, c;
    while last.forward[i] != null && Less(last.forward[i].key, key)
      invariant -1 <= d < |ns| && last == NodeOr(head, ns, d)
      invariant d == -1 || (ns[d].nodeLevel >= i && Less(ns[d].key, key))
      decreases |ns| - d
    {
      if d != -1 {
        assert ns[d] in ns;
      }
      last := last.forward[i];
      d := Succ(ns, d, i);
    }
    if d != -1 {
      assert ns[d] in ns;
    }
  }

  /** The loop of the traversal, on the chain ns with top level L: each
      level from L down to 0 is walked with Advance, and the node where the
      walk stops is recorded in update. */
  method Descend(head: Node, ghost ns: seq<Node>, L: int, key: string, update: array<Node?>)
    requires Towered(head, ns) && LinkedBetween(head, ns, 0, MaxLevel)
    requires StrictlySorted(EntriesOf(ns)) && 0 <= L <= MaxLevel
    requires update.Length == MaxLevel + 1 && update != head.forward && update !in TowerArrays(ns)
    requires forall lv :: 0 <= lv < update.Length ==> update[lv] == null
    modifies update
    ensures update[..] == Recorded(head, ns, L, Pos(EntriesOf(ns), key), -1)
  {
    ghost var q := Pos(EntriesOf(ns), key);
    assert update[..] == Recorded(head, ns, L, q, L);
    var current := head;
    ghost var c := -1;
    var i := L;
    while i >= 0
      invariant -1 <= i <= L
      invariant -1 <= c < |ns| && current == NodeOr(head, ns, c)
      invariant c == -1 || (ns[c].nodeLevel > i && Less(ns[c].key, key))
      invariant update[..] == Recorded(head, ns, L, q, i)
    {
      current, c := Record(head, ns, L, key, update, i, current, c);
      i := i - 1;
    }
  }

  /** One level of the traversal: advance on level i and record where the
      walk stopped, which is the last node on level i before Pos. */
  method Record(head: Node, ghost ns: seq<Node>, L: int, key: string, update: array<Node?>,
                i: int, current: Node, ghost c: int) returns (last: Node, ghost d: int)
    requires Towered(head, ns) && LinkedBetween(head, ns, 0, MaxLevel)
    requires StrictlySorted(EntriesOf(ns)) && 0 <= i <= L <= MaxLevel
    requires update.Length == MaxLevel + 1 && update != head.forward && update !in TowerArrays(ns)
    requires -1 <= c < |ns| && current == NodeOr(head, ns, c)
    requires c == -1 || (ns[c].nodeLevel > i && Less(ns[c].key, key))
    requires update[..] == Recorded(head, ns, L, Pos(EntriesOf(ns), key), i)
    modifies update
    ensures -1 <= d < |ns| && last == NodeOr(head, ns, d)
    ensures d == -1 || (ns[d].nodeLevel > i - 1 && Less(ns[d].key, key))
    ensures update[..] == Recorded(head, ns, L, Pos(EntriesOf(ns), key), i - 1)
  {
    last, d := Advance(head, ns, key, i, current, c);
    PredIsLast(ns, d, i, key);
    RecordedStep(head, ns, L, Pos(EntriesOf(ns), key), i);
    update[i] := last;
  }

  /** The walk of search, on the chain ns with top level L: on each level
      from L down to 0 advance, and stop as soon as the next node holds the
      key. */
  method Seek(head: Node, ghost ns: seq<Node>, L: int, key: string) returns (found: bool)
    requires Towered(head, ns) && LinkedBetween(head, ns, 0, MaxLevel)
    requires StrictlySorted(EntriesOf(ns)) && 0 <= L <= MaxLevel
    ensures found == HasKey(EntriesOf(ns), key)
  {
    var current := head;
    ghost var c := -1;
    var i := L;
    while i >= 0
      invariant -1 <= i <= L
      invariant -1 <= c < |ns| && current == NodeOr(head, ns, c)
      invariant i == L ==> c == -1
      invariant i < L ==> IsPred(ns, c, i + 1, key) && (Fwd(ns, c, i + 1) == null || Fwd(ns, c, i + 1).key != key)
    {
      var hit;
      current, c, hit := Probe(head, ns, key, i, current, c);
      if hit {
        return true;
      }
      i := i - 1;
    }
    // the walk stopped at level 0 just before the first key not below `key`
    AbsentAfterWalk(ns, c, key);
    return false;
  }

  /** One level of search: advance, then test whether the next node on
      the level holds the key, which then proves the key present. */
  method Probe(head: Node, ghost ns: seq<Node>, key: string, i: int, current: Node, ghost c: int)
    returns (last: Node, ghost d: int, hit: bool)
    requires Towered(head, ns) && LinkedBetween(head, ns, 0, MaxLevel) && 0 <= i <= MaxLevel
    requires -1 <= c < |ns| && current == NodeOr(head, ns, c)
    requires c == -1 || (ns[c].nodeLevel >= i && Less(ns[c].key, key))
    ensures IsPred(ns, d, i, key) && last == NodeOr(head, ns, d)
    ensures hit == (Fwd(ns, d, i) != null && Fwd(ns, d, i).key == key)
    ensures hit ==> HasKey(EntriesOf(ns), key)
  {
    last, d := Advance(head, ns, key, i, current, c);
    hit := last.forward[i] != null && last.forward[i].key == key;
    if hit {
      assert EntriesOf(ns)[Succ(ns, d, i)] in EntriesOf(ns);
    }
  }
}
