# A verified model of a string skip list

This project models the skip list in `skiplist.h` with `std::string` keys and values, as main.cpp's first list uses it, and proves properties of the model.

**The list.** A head node carries a tower of `SKIPLIST_MAXLEVEL + 1` = 21 forward pointers. Every other node carries a tower of `node_level + 1` pointers. Level 0 chains all nodes in increasing key order. Each higher level chains the nodes whose towers reach it.

**The operations.**
- `insert`, `search` and `remove` walk the list top-down. At each level they advance while the next key is smaller. `insert` and `remove` record the last node visited on each level in an `update[]` array, then splice a node in or out on every level of its tower.
- `insert` draws the new node's level from `get_random_level`.
- `remove` lowers the list's level while the head's pointer on it is null.
- `size` returns the element count.
- `dump_file` writes one `key:value` line per level-0 node. `load_file` reads such lines back through `get_key_value_from_line` and `is_valid_line` and inserts them.

**How the heap is modelled.**
- `Node` and `SkipList` are classes. A tower is an `array<Node?>`. The list's level and count are fields that the methods update in place.
- A ghost sequence `nodes` lists the level-0 chain. `Valid()` pins every pointer to a single function of that sequence: the level-`lv` pointer leaving position `j` leads to the first later node whose tower reaches `lv` (`Succ`).
- The key/value view `Entries()` of the list is a sorted `seq<Entry>`.
- Insertion and removal are specified on that view by `InsertSorted` and `RemoveKey`. Their meaning is proved separately: keys added or removed, values looked up, sortedness kept, and insert-then-remove restoring the sequence.
- The text form is specified by pure functions over entries and lines. The snapshot round trip is proved for them.

Keys are ordered by `std::string`'s `operator<`, modelled as `StringOrder.Less`, which is proved to be a strict total order.

## Model

| member | source | states |
|---|---|---|
| Towers.Node.constructor | skiplist.h:33-40 | a new node holds its key, value and level, and a fresh tower of level + 1 slots, all null |
| SkipLists.SkipList.constructor | skiplist.h:103-111 | a new list is valid (so every head slot is null) and empty, at level 0, with a fresh footprint |
| SkipLists.SkipList.RandomLevel | skiplist.h:124-132 | the level is 1 plus the number of leading promoting draws, capped at MaxLevel, so always in 1..20; every draw before the stopping one promoted and the stopping one did not |
| SkipLists.SkipList.FindPredecessors | skiplist.h:137-148 | the update array holds, for every level up to the list's, the last node on that level before the position where the key belongs (the head if none), and null above |
| SkipLists.Descend | skiplist.h:143-148 | the top-down loop fills update level by level, from the list's level down to 0, with the predecessor on each level |
| SkipLists.Record | skiplist.h:144-147 | one level of the walk: advancing leaves the last node before the key's position on that level, which is recorded in update[i] |
| SkipLists.Advance | skiplist.h:144-146 | the inner while loop stops at the last node of level i whose key is below the key |
| SkipLists.SkipList.NextOnLevelZero | skiplist.h:150-151 | after the walk, the level-0 successor of the recorded node is the node at the key's position (null at the end) |
| SkipLists.SkipList.Insert | skiplist.h:134-176 | returns true exactly when the key was absent; an absent key gets a fresh node with the given level, placed where the key belongs; count grows by one and the level becomes max(old level, random level); a present key changes nothing (nodes, count, level, footprint); the entries become InsertSorted of the old ones |
| SkipLists.SkipList.AddNode | skiplist.h:156-174 | the absent-key branch: raise, create, splice, count + 1, with the entries becoming InsertSorted of the old ones |
| SkipLists.SkipList.RaiseLevel | skiplist.h:159-164 | levels above the old top get the head as predecessor and the level becomes max(old level, random level) |
| SkipLists.SkipList.Splice | skiplist.h:166-173 | after the pointer surgery the list is valid with the new node at its sorted position, one more element and entries InsertSorted |
| SkipLists.LinkTower | skiplist.h:168-171 | the splice loop from the top of the new tower down to 0 leaves every pointer of the list with the node inserted as Succ demands |
| SkipLists.LinkStep | skiplist.h:169-170 | one level of the splice: the new node takes its predecessor's pointer, then the predecessor points to it |
| SkipLists.LinkLevel | skiplist.h:169-170 | the two pointer writes of one level, as array updates of the two towers |
| SkipLists.SkipList.Search | skiplist.h:178-193 | returns true exactly when the key is in the list; changes nothing |
| SkipLists.Seek | skiplist.h:180-192 | the top-down search loop over the chain returns true exactly when the key is among its entries |
| SkipLists.Probe | skiplist.h:183-189 | one level of search: advance, then report a hit exactly when the next node on that level holds the key, which then is present |
| Towers.AbsentAfterWalk | skiplist.h:191-192 | when the level-0 walk ends before a node whose key differs from the key (or at the end), the key is absent |
| SkipLists.SkipList.Remove | skiplist.h:195-223 | returns true exactly when the key was present; a present key's node is removed from the level-0 sequence at its position, count drops by one and the node leaves the footprint; an absent key changes nothing; the entries become RemoveKey of the old ones; the level afterwards is the height of the tallest remaining tower |
| SkipLists.SkipList.DeleteNode | skiplist.h:210-218 | the present-key branch: the node is unlinked, forgotten and counted out, the list stays valid, and the level becomes the tallest remaining tower's height |
| SkipLists.SkipList.Forget | skiplist.h:214-215 | the node leaves the level-0 sequence and the footprint and the count drops by one |
| SkipLists.Detach | skiplist.h:211-218 | after unlinking and lowering, every pointer matches the chain without the node and the level found is the height of the tallest remaining tower |
| SkipLists.UnlinkTower | skiplist.h:211-213 | the unlink loop from the node's top level down to 0 makes every predecessor skip the node |
| SkipLists.UnlinkStep | skiplist.h:212 | one level of the unlink: the predecessor takes over the node's pointer |
| SkipLists.UnlinkNode | skiplist.h:211-213 | the pointers after the unlink loop are exactly those of the chain without the node |
| SkipLists.UnlinkLevel | skiplist.h:212 | the single pointer write of one level, as an array update |
| SkipLists.TopInUse | skiplist.h:216-218 | the lowering loop stops at the highest level whose head pointer is non-null, or 0, which equals the height of the tallest tower |
| SkipLists.SkipList.SetLevel | skiplist.h:217 | storing the lowered level keeps the list valid |
| SkipLists.SkipList.ValidAfterDelete | skiplist.h:209-218 | the list without the node, at the lowered level, is valid and holds RemoveKey of the old entries |
| SkipLists.SkipList.ValidAfterAdd | skiplist.h:156-174 | the list with the spliced node, at the raised level, is valid and holds InsertSorted of the old entries |
| SkipLists.SkipList.Size | skiplist.h:295-298 | returns the number of entries |
| SkipLists.SkipList.Dump | skiplist.h:239-254 | the text written is DumpText of the entries: one `key:value` line per node, in key order |
| SkipLists.WriteChain | skiplist.h:244-249 | the level-0 walk from the head to null writes the dump of the whole chain |
| SkipLists.ZeroLinks | skiplist.h:244-248 | on level 0 the head points to the first node and each node to the next, since every tower reaches level 0 |
| SkipLists.SkipList.Load | skiplist.h:256-272 | the list stays valid and its entries become LoadEntries of the old ones over the text's lines |
| SkipLists.SkipList.LoadLine | skiplist.h:264-269 | one line: the carried key/value are updated by the line, and the pair is inserted unless either half is empty |
| Snapshots.Find | skiplist.h:280-281 | the position of the first occurrence of the character, or the length (npos) when there is none |
| Snapshots.IsValidLine | skiplist.h:284-293 | a line is valid exactly when it contains the delimiter (which makes it non-empty) |
| Snapshots.KeyValueFromLine | skiplist.h:274-282 | on a valid line the key and value are the text before and after its first delimiter, and the line is their join; on an invalid line the key and value given come back unchanged |
| Snapshots.DumpLines | skiplist.h:244-249 | one line per entry |
| Snapshots.Lines | skiplist.h:263 | no line getline yields contains a newline |
| Snapshots.LineSplits | skiplist.h:246-281 | a line written for an entry whose key has no delimiter splits back into that key and value |
| Snapshots.LinesOfDump | skiplist.h:246-263 | reading the dump of storable entries line by line yields exactly the lines written |
| Snapshots.LoadAppends | skiplist.h:263-270 | loading the lines of sorted entries that all come after the current ones appends them in order |
| Snapshots.DumpLoad | skiplist.h:244-270 | round trip: loading the dump of a sorted list of storable entries into an empty list rebuilds exactly that list |
| Snapshots.LoadPresent | skiplist.h:264-268 | loading lines whose keys are all present already changes nothing |
| Snapshots.ReloadUnchanged | skiplist.h:244-270 | reloading a list's own dump into it leaves it as it was |
| Snapshots.DelimiterInKeySplits | skiplist.h:246-281 | a key holding the delimiter does not survive: it reads back cut at its first delimiter, the rest joining the value |
| Snapshots.DumpTextFrom | skiplist.h:245-248 | the dump of a suffix is its first line followed by the dump of the rest |
| Entries.Lookup | skiplist.h:186-187 | a value is found exactly when the key is present |
| Entries.Pos | skiplist.h:144-151 | the position where the walk stops: every earlier key is below the key and the key there is not |
| Entries.PosFinds | skiplist.h:150-152 | in a sorted list the key is present exactly when the entry at Pos carries it |
| Entries.InsertSortedSorted | skiplist.h:156-171 | insertion keeps the keys strictly increasing |
| Entries.InsertSortedKeys | skiplist.h:150-175 | the key set becomes the old one plus the key; the length grows by one exactly when the key was absent |
| Entries.InsertSortedLookup | skiplist.h:150-175 | a new key gets its value; a present key keeps its existing value and every other key keeps its value |
| Entries.RemoveKeySorted | skiplist.h:209-215 | removal keeps the keys strictly increasing |
| Entries.RemoveKeyKeys | skiplist.h:209-215 | the key set loses the key; the length drops by one exactly when the key was present |
| Entries.RemoveKeyLookup | skiplist.h:209-215 | the removed key is absent afterwards and every other key keeps its value |
| Entries.InsertRemoveKey | skiplist.h:156-215 | removing a key just inserted gives back the entries it went into |
| Entries.SortedUnique | skiplist.h:150-152 | in a sorted list a key occurs once |
| Entries.PosOfKey | skiplist.h:209-210 | the walk for a present key stops on it |
| Entries.LookupInsertAt | skiplist.h:168-171 | placing a new key anywhere gives it its value and leaves the others |
| Entries.LookupRemoveAt | skiplist.h:211-213 | dropping one entry leaves the value of every other key |
| Entries.PosSorted | skiplist.h:144 | in a sorted list every entry from Pos on is at least the key |
| Entries.PosAbove | skiplist.h:156 | in a sorted list without the key, every entry from Pos on is above it |
| Entries.KeySetInsertAt | skiplist.h:168-171 | placing an entry adds its key to the key set |
| StringOrder.LessIrreflexive | skiplist.h:144 | no key is below itself |
| StringOrder.LessTransitive | skiplist.h:144 | the key order is transitive |
| StringOrder.LessTotal | skiplist.h:150-156 | any two distinct keys are ordered one way or the other |
| StringOrder.LessAsymmetric | skiplist.h:144 | two keys are never each below the other |
| Towers.Succ | skiplist.h:144-145 | the level-lv successor of a position is the first later node whose tower reaches lv, or the end |
| Towers.Last | skiplist.h:143-147 | the last position before q whose tower reaches lv (the head if none) |
| Towers.Recorded | skiplist.h:140-148 | the update array as the walk leaves it: predecessors for levels above i up to the list's level, null elsewhere |
| Towers.RecordedStep | skiplist.h:147 | recording level i extends the recorded array by that level's predecessor |
| Towers.RecordedRaise | skiplist.h:160-162 | raising the level records the head for the new level |
| Towers.PredBounds | skiplist.h:144-147 | a node on the walk lies before the key's position and its successor is at or after it |
| Towers.PredIsLast | skiplist.h:143-147 | where the walk stops on a level is the last node before the key's position on that level |
| Towers.ChainShapeIns | skiplist.h:156-174 | a fresh node with an absent key spliced in where the key belongs keeps the chain's shape at max(level, node level), with entries InsertSorted |
| Towers.ChainShapeDel | skiplist.h:209-215 | dropping a node keeps the chain sorted and within its level, with entries RemoveKey |
| Towers.ToweredIns | skiplist.h:166 | a fresh tower added to the chain keeps all towers distinct and sized |
| Towers.ToweredDel | skiplist.h:214 | dropping a node keeps the other towers distinct and sized |
| Towers.SpliceAt | skiplist.h:169-170 | at a level the new node reaches, its predecessor then points to it and it points to the predecessor's old target; other pointers keep their targets |
| Towers.SpliceAbove | skiplist.h:168 | at a level above the new tower no pointer changes target |
| Towers.InsertSucc | skiplist.h:169-170 | how the successor positions shift when a node is inserted |
| Towers.FwdInsert | skiplist.h:169-170 | how the pointer targets change when a node is inserted |
| Towers.FwdInsertNew | skiplist.h:169 | the new node's pointer on a level is its predecessor's old target there |
| Towers.SpliceStep | skiplist.h:169-170 | one level of splicing moves the boundary of the spliced levels down by one |
| Towers.SplicedDone | skiplist.h:168-171 | after all levels are spliced, the towers are linked as for the chain with the node inserted |
| Towers.UnsplicedStart | skiplist.h:211 | before unlinking, the towers are those of the chain with the node in it |
| Towers.UnspliceStep | skiplist.h:212 | one level of unlinking moves the boundary of the unlinked levels down by one |
| Towers.Height | skiplist.h:216-218 | the height is the tallest tower's level, 0 when there is none |
| Towers.TopIsHeight | skiplist.h:216-218 | a level whose head pointer is non-null and that bounds every tower is the height |
| Towers.EntriesOfIns | skiplist.h:166-171 | inserting a node inserts its entry at the same position |
| Towers.EntriesOfDel | skiplist.h:211-214 | removing a node removes its entry at the same position |
| Towers.LastPrefix | skiplist.h:143-147 | Last depends only on the chain before the position |
| Towers.SnapInsertAt | skiplist.h:166-171 | the snapshot of the towers with a node inserted has its tower at the same position |
| Sequences.RemoveInsert | skiplist.h:168-213 | removing what was just inserted gives back the original sequence |
| Sequences.InsertRemove | skiplist.h:168-213 | putting back what was removed gives back the original sequence |

## Left out

- `std::mutex` and `lock_guard` (skiplist.h:93, 98, 136, 197) are not modelled: the model is sequential. As written, `insert` holds `mutex_` (line 136) and then calls `create_node`, which locks the same non-recursive mutex again (line 98), which deadlocks. The model treats `create_node` as plain allocation, as evidently intended.
- `random()` is not modelled: `RandomLevel` takes the stream of draws as a function `draw`. `Insert` and `Load` take the level that `get_random_level` would return as a parameter in 1..20.
  - The distribution of levels is not modelled.
  - `SKIPLIST_P` is 0.5 in the code, while its comment (line 9) says 1/4. `Promotes` follows the code.
- File handling is not modelled: opening, writing, flushing and closing `data/dump_file` (lines 242, 251-252, 258, 271). `Dump` returns the text it would write. `Load` takes the file's text as a parameter.
- Console output is not modelled, including `display_list` (lines 225-237) and every message. `remove` prints "Not exists key" even after a successful delete (lines 219-221).
- SkipLists.SkipList.Remove: returns a bool telling whether the key was present, where the source returns `void` and only prints.
- Memory management is not modelled: `new`, `delete`, `memset` and the destructor (lines 114-122), which deletes only the head and leaks every node. Dafny's heap replaces these.
- `Node::set_value` (lines 57-60) is never called by the list, so a node's value is a constant.
- The keys and values are `std::string` only. The `SkipList<int, std::string>` of main.cpp and the templates' other instantiations are not modelled.
- The global `delimiter` (line 12) is the constant `':'`.
- main.cpp's demo run (sizes 6 and then 4) is not modelled as a proof. Its outcome follows from the contracts of `Insert`, `Size`, `Search` and `Remove`.
- stress-test/stress_test.cpp is not part of this model.
