# Word-frequency map engines, modelled in Dafny

The program counts word occurrences with one of four interchangeable key-to-value
dictionaries: an AVL tree (`avltree.h`), a red-black tree with parent links
(`rbtree.h`), a hash table with separate chaining (`hashe.h`) and a hash table with
open addressing and linear probing (`hashl.h`). Every engine offers `add`, `contains`
and `at`. The trees also offer an in-order traversal. The tables offer `remove`,
`display` and `clear`, and they double their capacity once the load would pass 3/4.
The driver in `main.cpp` feeds each word to the engine: it increments the count of a
known word and adds an unknown word with count 1.

The model has six modules:

- `Entries` (entries.dfy): the shared abstract view. A dictionary's contents is a
  sequence of (key, value) pairs. `ToMap` turns it into a map, `KeysOf` gives its key
  set, and `SortedInsert` is the reference definition of inserting into a sorted
  sequence. `Home`, the `hash_function` both tables share, lives here too.
- `AvlTree` (avltree.dfy): an algebraic tree with a stored height per node. Insertion,
  the four rotation cases, search and `at` are modelled.
- `RbTree` (rbtree.dfy): the parent pointers become a zipper. The path of frames from
  the cursor to the root stands for the chain of `parent` links, so `node = node->parent`
  is `Up` and the rotations act on the cursor's subtree. `fix_insert` is `FixUp`, one
  loop pass per `Step`.
- `ChainedHash` (hashe.dfy): a sequence of chains plus the element counter.
- `ProbingHash` (hashl.dfy): a sequence of slots (`Empty`, `Occupied(key, value)`,
  `Removed`) plus the element counter.
- `WordCount` (wordcount.dfy): the driver loop over a sequence of words, run on each
  engine, against the reference `Frequencies` (the multiset of the words as a map).

Keys are integers and values are generic. The hash is a parameter `hash: int -> nat`
of every table operation, reduced modulo the capacity as `hash_function` does. So
every table property holds for any hash function. Capacities are unbounded integers,
and the load check `(n + 1) > size * 0.75` is written exactly as `4 * (n + 1) > 3 * size`.
An `at` that throws in the source returns `None` here. Its use as an assignable
reference (`at(w) += 1`) is a separate `SetAt`, which returns `None` where `at`
would throw.

Each table carries explicit invariants, and the constructors establish them:

- `WellFormed`/`Valid` for the chained table: every entry sits in its home chain,
  keys are distinct, and the counter equals the number of entries.
- For the probing table:
  - `CountOk`: the counter equals the number of occupied slots.
  - `Reachable`: no empty slot lies between a key's home and its slot.
  - `Unique`: keys are distinct.
  - `NoTombstones`: no `Removed` slot.
  - `LoadOk`: the load bound.

Contracts about operations are stated as "invariant before implies invariant after",
so each operation is total on what the source accepts.

## Model

| member | source | states |
|---|---|---|
| AvlTree.HeightNonNeg | FINAL_EDA-20240920T135618Z-001/FINAL_EDA/avltree.h:59-61 | get_height of a well-formed tree is never negative, and at least 1 for a node |
| AvlTree.RightRotate | FINAL_EDA-20240920T135618Z-001/FINAL_EDA/avltree.h:69-80 | right_rotate keeps the in-order sequence, promotes the left child over the old root, and leaves correct stored heights |
| AvlTree.LeftRotate | FINAL_EDA-20240920T135618Z-001/FINAL_EDA/avltree.h:83-94 | left_rotate keeps the in-order sequence, promotes the right child over the old root, and leaves correct stored heights |
| AvlTree.Rebalance | FINAL_EDA-20240920T135618Z-001/FINAL_EDA/avltree.h:112-130 | each of the four rotation cases, chosen by balance and by comparing the key with the child's key, keeps the in-order sequence |
| AvlTree.InsertLeftCase | FINAL_EDA-20240920T135618Z-001/FINAL_EDA/avltree.h:103-130 | after a descent to the left, the rebalanced node is again AVL-balanced and at most one taller |
| AvlTree.InsertRightCase | FINAL_EDA-20240920T135618Z-001/FINAL_EDA/avltree.h:105-130 | after a descent to the right, the rebalanced node is again AVL-balanced and at most one taller |
| AvlTree.Insert | FINAL_EDA-20240920T135618Z-001/FINAL_EDA/avltree.h:97-133 | insert_rec on a balanced tree returns a balanced tree with correct heights that grew by at most one |
| AvlTree.InsertInorder | FINAL_EDA-20240920T135618Z-001/FINAL_EDA/avltree.h:30-32 | on an ordered balanced tree, add lays out exactly the sorted insertion of the pair (a present key leaves the sequence unchanged) |
| AvlTree.InsertView | FINAL_EDA-20240920T135618Z-001/FINAL_EDA/avltree.h:30-32 | add keeps the tree ordered, adds the key to the key set, and maps a new key to its value while a present key keeps its old value |
| AvlTree.InsertPresent | FINAL_EDA-20240920T135618Z-001/FINAL_EDA/avltree.h:101-109 | adding a key that is already stored returns the identical tree, so the value is not overwritten |
| AvlTree.Search | FINAL_EDA-20240920T135618Z-001/FINAL_EDA/avltree.h:145-155 | search returns a node only when that node's key is the one sought and its pair is in the tree |
| AvlTree.SearchCorrect | FINAL_EDA-20240920T135618Z-001/FINAL_EDA/avltree.h:145-155 | in an ordered tree, search finds a node exactly when the key is stored, and that node carries the stored value |
| AvlTree.Contains | FINAL_EDA-20240920T135618Z-001/FINAL_EDA/avltree.h:35-37 | contains is true exactly when the ordered tree maps the key |
| AvlTree.At | FINAL_EDA-20240920T135618Z-001/FINAL_EDA/avltree.h:40-46 | at yields the mapped value, or nothing where the source throws |
| AvlTree.SetAt | FINAL_EDA-20240920T135618Z-001/FINAL_EDA/avltree.h:40-46 | assigning through at succeeds exactly when search finds the key, and keeps the keys, the heights and the balance |
| AvlTree.SetAtView | FINAL_EDA-20240920T135618Z-001/FINAL_EDA/avltree.h:40-46 | assigning through at on a stored key keeps the tree ordered and updates only that key's value |
| RbTree.PlugInorder | FINAL_EDA-20240920T135618Z-001/FINAL_EDA/rbtree.h:178-184 | the in-order traversal of a tree seen through a cursor is the path's left part, the cursor subtree, then the path's right part |
| RbTree.Up | FINAL_EDA-20240920T135618Z-001/FINAL_EDA/rbtree.h:100 | moving the cursor to the parent shortens the path and describes the same tree |
| RbTree.RotateLeft | FINAL_EDA-20240920T135618Z-001/FINAL_EDA/rbtree.h:132-152 | rotate_left keeps the in-order sequence, promotes the right child, and does nothing without a right child |
| RbTree.RotateRight | FINAL_EDA-20240920T135618Z-001/FINAL_EDA/rbtree.h:155-175 | rotate_right keeps the in-order sequence, promotes the left child, and does nothing without a left child |
| RbTree.RedUncle | FINAL_EDA-20240920T135618Z-001/FINAL_EDA/rbtree.h:96-100 | the red-uncle case recolours only: the shape and the traversal stay, the grandparent keeps its key and value, turns red, and its two children are painted black; the cursor moves to the grandparent, whose path above it is unchanged |
| RbTree.Step | FINAL_EDA-20240920T135618Z-001/FINAL_EDA/rbtree.h:94-126 | one pass of the fix-up loop shortens the path to the root and keeps the in-order sequence |
| RbTree.FixUp | FINAL_EDA-20240920T135618Z-001/FINAL_EDA/rbtree.h:87-127 | the fix-up loop terminates and changes colours and links only, never the in-order sequence |
| RbTree.Search | FINAL_EDA-20240920T135618Z-001/FINAL_EDA/rbtree.h:187-197 | search_rec returns a node only when that node's key is the one sought and its pair is in the tree |
| RbTree.SearchCorrect | FINAL_EDA-20240920T135618Z-001/FINAL_EDA/rbtree.h:187-197 | in an ordered tree, search finds a node exactly when the key is stored, and that node carries the stored value |
| RbTree.SearchIgnoresColour | FINAL_EDA-20240920T135618Z-001/FINAL_EDA/rbtree.h:187-197 | colours never steer the search |
| RbTree.Contains | FINAL_EDA-20240920T135618Z-001/FINAL_EDA/rbtree.h:46-48 | contains is true exactly when the ordered tree maps the key |
| RbTree.At | FINAL_EDA-20240920T135618Z-001/FINAL_EDA/rbtree.h:51-57 | at yields the mapped value, or nothing where the source throws |
| RbTree.SetAt | FINAL_EDA-20240920T135618Z-001/FINAL_EDA/rbtree.h:51-57 | assigning through at succeeds exactly when search finds the key, and keeps the key set |
| RbTree.SetAtView | FINAL_EDA-20240920T135618Z-001/FINAL_EDA/rbtree.h:51-57 | assigning through at on a stored key keeps the tree ordered and updates only that key's value |
| RbTree.Descend | FINAL_EDA-20240920T135618Z-001/FINAL_EDA/rbtree.h:70-84 | insert_rec hangs the new red leaf where the search for its key falls off, recording the parent chain |
| RbTree.DescendPlug | FINAL_EDA-20240920T135618Z-001/FINAL_EDA/rbtree.h:70-84 | the cursor left by the descent describes exactly the tree insert_rec builds |
| RbTree.InsertRecElems | FINAL_EDA-20240920T135618Z-001/FINAL_EDA/rbtree.h:70-84 | placing an absent key keeps every old pair and adds exactly the new one |
| RbTree.InsertRecInorder | FINAL_EDA-20240920T135618Z-001/FINAL_EDA/rbtree.h:70-84 | in an ordered tree, insert_rec lays out exactly the sorted insertion |
| RbTree.Add | FINAL_EDA-20240920T135618Z-001/FINAL_EDA/rbtree.h:34-43 | add of an absent key yields a black root and the old pairs plus the new pair |
| RbTree.AddView | FINAL_EDA-20240920T135618Z-001/FINAL_EDA/rbtree.h:34-43 | add of an absent key lays out the sorted insertion, keeps the tree ordered and maps the new key to its value |
| RbTree.StaleParentExample | FINAL_EDA-20240920T135618Z-001/FINAL_EDA/rbtree.h:101-109 | adding 3, 1, 2 paints the stale parent black: the root 2 gets a black left child and a red right child, so the black heights differ |
| Entries.Home | FINAL_EDA-20240920T135618Z-001/FINAL_EDA/hashe.h:123-125 | hash_function gives a chain index inside the table; the probing table's hash_function (hashl.h:153-156) is the same |
| ChainedHash.FlattenFindHome | FINAL_EDA-20240920T135618Z-001/FINAL_EDA/hashe.h:53-64 | when every entry sits in its home chain, looking a key up in its home chain is looking it up in the whole table |
| ChainedHash.IndexOf | FINAL_EDA-20240920T135618Z-001/FINAL_EDA/hashe.h:40-45 | the chain scan stops at the first entry holding the key, and finds none exactly when the chain lacks the key |
| ChainedHash.New | FINAL_EDA-20240920T135618Z-001/FINAL_EDA/hashe.h:21-24 | the constructor makes the requested number of empty chains and a zero counter |
| ChainedHash.EmptyValid | FINAL_EDA-20240920T135618Z-001/FINAL_EDA/hashe.h:21-24 | an empty table satisfies the table invariant and maps nothing |
| ChainedHash.Put | FINAL_EDA-20240920T135618Z-001/FINAL_EDA/hashe.h:36-49 | add after the load check touches only the key's home chain, appends an absent key at the chain's end, and yields the old map updated at the key, counting a new key once |
| ChainedHash.PutCorrect | FINAL_EDA-20240920T135618Z-001/FINAL_EDA/hashe.h:36-49 | overwriting the found entry or appending a new one keeps the invariant and updates the map at the key |
| ChainedHash.DistributeChain | FINAL_EDA-20240920T135618Z-001/FINAL_EDA/hashe.h:128-141 | the rehash loop appends to each new chain exactly the old entries homed there, in their old order |
| ChainedHash.Rehash | FINAL_EDA-20240920T135618Z-001/FINAL_EDA/hashe.h:128-141 | rehash produces the requested number of chains holding the same entries and count, keeps the invariant and the map |
| ChainedHash.RehashCorrect | FINAL_EDA-20240920T135618Z-001/FINAL_EDA/hashe.h:128-141 | any table whose chains are the order-preserving selection of the old entries by new home keeps the invariant and the map |
| ChainedHash.Add | FINAL_EDA-20240920T135618Z-001/FINAL_EDA/hashe.h:31-50 | add doubles the chain count exactly when the load check fires, maps the key to the value, keeps everything else, and counts a new key once |
| ChainedHash.Contains | FINAL_EDA-20240920T135618Z-001/FINAL_EDA/hashe.h:53-64 | contains is true exactly when the table maps the key |
| ChainedHash.At | FINAL_EDA-20240920T135618Z-001/FINAL_EDA/hashe.h:67-78 | at yields the mapped value, or nothing where the source throws |
| ChainedHash.SetAt | FINAL_EDA-20240920T135618Z-001/FINAL_EDA/hashe.h:67-78 | assigning through at succeeds exactly when the key is stored, and then updates only that key's value |
| ChainedHash.Remove | FINAL_EDA-20240920T135618Z-001/FINAL_EDA/hashe.h:81-95 | remove reports success exactly when the key is stored, and then unmaps it and counts it out; otherwise nothing changes |
| ChainedHash.Display | FINAL_EDA-20240920T135618Z-001/FINAL_EDA/hashe.h:98-106 | display lists every entry of every chain and nothing else |
| ChainedHash.DisplayCorrect | FINAL_EDA-20240920T135618Z-001/FINAL_EDA/hashe.h:98-106 | under the invariant, display lists count pairs with distinct keys, exactly the pairs of the map |
| ChainedHash.Clear | FINAL_EDA-20240920T135618Z-001/FINAL_EDA/hashe.h:109-114 | clear empties every chain and resets the counter, keeping the capacity |
| ProbingHash.Dist | FINAL_EDA-20240920T135618Z-001/FINAL_EDA/hashl.h:47 | every slot is reached from any start by some number of wrap-around steps |
| ProbingHash.DisplayMember | FINAL_EDA-20240920T135618Z-001/FINAL_EDA/hashl.h:130-138 | display lists a pair exactly when some slot is occupied by it |
| ProbingHash.DisplayLength | FINAL_EDA-20240920T135618Z-001/FINAL_EDA/hashl.h:130-138 | display lists at most one pair per slot, and as many as slots only when every slot is occupied |
| ProbingHash.DisplayCorrect | FINAL_EDA-20240920T135618Z-001/FINAL_EDA/hashl.h:130-138 | display lists count pairs, and on a duplicate-free table exactly the pairs of the map |
| ProbingHash.Probe | FINAL_EDA-20240920T135618Z-001/FINAL_EDA/hashl.h:55-71 | the lookup scan (stop at an empty slot or after a full cycle) only reports a slot occupied by the key |
| ProbingHash.ProbeFirst | FINAL_EDA-20240920T135618Z-001/FINAL_EDA/hashl.h:55-71 | the scan reports the first slot holding the key when every slot before it is occupied by other keys |
| ProbingHash.ProbeComplete | FINAL_EDA-20240920T135618Z-001/FINAL_EDA/hashl.h:55-71 | when no empty slot cuts a key off from its home, the scan finds the key exactly when the table stores it |
| ProbingHash.Lookup | FINAL_EDA-20240920T135618Z-001/FINAL_EDA/hashl.h:55-71 | the scan from the key's home finds a slot exactly when the key is stored (on a gap-free table) |
| ProbingHash.AddStep | FINAL_EDA-20240920T135618Z-001/FINAL_EDA/hashl.h:41-48 | the add loop stops at the first slot on the probe path that is not occupied or holds the key |
| ProbingHash.FreeStep | FINAL_EDA-20240920T135618Z-001/FINAL_EDA/hashl.h:165-167 | the rehash loop stops at the first slot on the probe path that is not occupied |
| ProbingHash.ProbeAgree | FINAL_EDA-20240920T135618Z-001/FINAL_EDA/hashl.h:41-71 | where the add loop stops at the key, the lookup scan finds that slot; where it stops at an empty slot, the scan finds nothing |
| ProbingHash.PutCorrect | FINAL_EDA-20240920T135618Z-001/FINAL_EDA/hashl.h:38-52 | writing at the add loop's stop keeps the key findable, keeps the gap-free and duplicate-free invariants (given no tombstone hides the key), and updates the map |
| ProbingHash.Put | FINAL_EDA-20240920T135618Z-001/FINAL_EDA/hashl.h:38-52 | add after the load check leaves the key findable with the new value, counts at most one new entry, and updates the map |
| ProbingHash.New | FINAL_EDA-20240920T135618Z-001/FINAL_EDA/hashl.h:28-31 | the constructor makes the requested number of slots and a zero counter |
| ProbingHash.NewValid | FINAL_EDA-20240920T135618Z-001/FINAL_EDA/hashl.h:28-31 | a fresh table satisfies every table invariant and maps nothing |
| ProbingHash.Reinsert | FINAL_EDA-20240920T135618Z-001/FINAL_EDA/hashl.h:162-170 | the rehash loop moves exactly the occupied entries into the new slots |
| ProbingHash.ReinsertStep | FINAL_EDA-20240920T135618Z-001/FINAL_EDA/hashl.h:162-170 | one rehash step places an occupied entry at the first free slot on its new probe path and skips any other slot |
| ProbingHash.ReinsertNoTombstones | FINAL_EDA-20240920T135618Z-001/FINAL_EDA/hashl.h:158-174 | rehash leaves no removed marker |
| ProbingHash.ReinsertReachable | FINAL_EDA-20240920T135618Z-001/FINAL_EDA/hashl.h:158-174 | rehash leaves no empty slot between a key's home and its slot |
| ProbingHash.ReinsertUnique | FINAL_EDA-20240920T135618Z-001/FINAL_EDA/hashl.h:158-174 | rehash of distinct keys keeps the keys distinct |
| ProbingHash.Rehash | FINAL_EDA-20240920T135618Z-001/FINAL_EDA/hashl.h:158-174 | rehash keeps the entries and the count, drops tombstones, makes every key reachable, and keeps the map of a duplicate-free table |
| ProbingHash.Grow | FINAL_EDA-20240920T135618Z-001/FINAL_EDA/hashl.h:34-36 | the load check doubles the capacity exactly when it fires, leaves a free slot, restores the load bound and keeps the invariants and the map |
| ProbingHash.Add | FINAL_EDA-20240920T135618Z-001/FINAL_EDA/hashl.h:33-53 | add as written: the capacity rule, the key then maps to the value, and without tombstones the invariants, the map update and the count are kept |
| ProbingHash.AddStepFinds | FINAL_EDA-20240920T135618Z-001/FINAL_EDA/hashl.h:41-48 | without tombstones the add loop stops exactly at the slot the lookup finds |
| ProbingHash.AddWrites | FINAL_EDA-20240920T135618Z-001/FINAL_EDA/hashl.h:38-52 | when no doubling is due, add writes the entry into the first slot of the key's probe path that is unoccupied or holds the key, and counts it only when that slot was unoccupied |
| ProbingHash.AddFixedOverwrites | FINAL_EDA-20240920T135618Z-001/FINAL_EDA/hashl.h:42-45 | when no doubling is due and a lookup finds the key, the corrected add overwrites that slot in place and keeps the element counter |
| ProbingHash.AddFixed | FINAL_EDA-20240920T135618Z-001/FINAL_EDA/hashl.h:33-53 | add that first looks the key up: on any table with the invariants it keeps keys distinct, maps the key to the value and counts a new key once, and it equals add when there are no tombstones |
| ProbingHash.Contains | FINAL_EDA-20240920T135618Z-001/FINAL_EDA/hashl.h:55-71 | contains reports only stored keys, and every stored key when no empty slot cuts it off from home |
| ProbingHash.At | FINAL_EDA-20240920T135618Z-001/FINAL_EDA/hashl.h:73-108 | at (and search, the same scan) yields only stored pairs, and on a valid table the mapped value, or nothing where the source throws |
| ProbingHash.SetAt | FINAL_EDA-20240920T135618Z-001/FINAL_EDA/hashl.h:73-89 | assigning through at succeeds exactly when the key is stored, then updates only that key's value and keeps the invariants |
| ProbingHash.EraseView | FINAL_EDA-20240920T135618Z-001/FINAL_EDA/hashl.h:117-118 | marking an occupied slot removed drops one listed pair and exactly that key from the map |
| ProbingHash.Remove | FINAL_EDA-20240920T135618Z-001/FINAL_EDA/hashl.h:110-128 | remove reports success exactly when the key is stored, and then unmaps it and counts it out; otherwise nothing changes |
| ProbingHash.Clear | FINAL_EDA-20240920T135618Z-001/FINAL_EDA/hashl.h:140-145 | clear empties every slot and resets the counter, keeping the capacity |
| ProbingHash.ClearValid | FINAL_EDA-20240920T135618Z-001/FINAL_EDA/hashl.h:140-145 | a cleared table satisfies the reachability and load invariants |
| ProbingHash.AddHistory | FINAL_EDA-20240920T135618Z-001/FINAL_EDA/hashl.h:33-53 | any sequence of adds from a fresh table keeps every invariant, and the table holds exactly the keys added |
| ProbingHash.AddAllKeeps | FINAL_EDA-20240920T135618Z-001/FINAL_EDA/hashl.h:33-53 | a sequence of adds to a valid table without tombstones keeps the invariants and adds exactly those keys |
| ProbingHash.DuplicateAfterRemove | FINAL_EDA-20240920T135618Z-001/FINAL_EDA/hashl.h:41-52 | with every key hashed to slot 0: add 1, add 2, remove 1, add 2 leaves key 2 in two slots, and removing 2 still leaves it present |
| ProbingHash.NoDuplicateFixed | FINAL_EDA-20240920T135618Z-001/FINAL_EDA/hashl.h:41-52 | the same history with the look-up-first add keeps one copy of key 2, and removing it leaves it absent |
| WordCount.TallyFrequencies | FINAL_EDA-20240920T135618Z-001/FINAL_EDA/main.cpp:123-127 | counting words one at a time from nothing gives each word its number of occurrences |
| WordCount.AvlStep | FINAL_EDA-20240920T135618Z-001/FINAL_EDA/main.cpp:123-127 | one driver step on the AVL tree keeps it balanced and ordered and adds one to the word's count |
| WordCount.RbStep | FINAL_EDA-20240920T135618Z-001/FINAL_EDA/main.cpp:123-127 | one driver step on the red-black tree keeps it ordered and adds one to the word's count, calling add only for an absent word |
| WordCount.ChainedStep | FINAL_EDA-20240920T135618Z-001/FINAL_EDA/main.cpp:123-127 | one driver step on the chained table keeps the invariant and adds one to the word's count |
| WordCount.ProbingStep | FINAL_EDA-20240920T135618Z-001/FINAL_EDA/main.cpp:123-127 | one driver step on the probing table, with the add as written, keeps the invariants and adds one to the word's count |
| WordCount.AvlCount | FINAL_EDA-20240920T135618Z-001/FINAL_EDA/main.cpp:123-127 | the driver loop on the AVL tree yields the counts of all the words added to the starting counts |
| WordCount.RbCount | FINAL_EDA-20240920T135618Z-001/FINAL_EDA/main.cpp:123-127 | the driver loop on the red-black tree yields the counts of all the words added to the starting counts |
| WordCount.ChainedCount | FINAL_EDA-20240920T135618Z-001/FINAL_EDA/main.cpp:123-127 | the driver loop on the chained table yields the counts of all the words added to the starting counts |
| WordCount.ProbingCount | FINAL_EDA-20240920T135618Z-001/FINAL_EDA/main.cpp:123-127 | the driver loop on the probing table yields the counts of all the words added to the starting counts |
| WordCount.EnginesAgree | FINAL_EDA-20240920T135618Z-001/FINAL_EDA/main.cpp:123-127 | all four engines, started empty, end with every word's occurrence count, whatever the hash and for any positive table capacity (main.cpp builds both tables with 19) |

## Notes on the source

- The check `if (!grandparent) break;` in `fix_insert` (rbtree.h:92) is reachable. After
  adding 3 and then 1, adding 2 reaches it in the triangle case. The loop is then entered
  with the cursor on the old parent, whose parent is the root. The model keeps the break.
- In the triangle cases of `fix_insert` (rbtree.h:102-106 and 118-122), the local
  `parent` is not re-read after `node = parent` and the rotation. So the node painted
  black is the one that moved down, not the one that moved up.
  `RbTree.StaleParentExample` shows a result whose two sides have different black
  heights. The model keeps this behaviour: the red-black colour invariant is therefore
  not claimed for `RbTree.Add`.
- `rbtree.h` `add` with a present key discards the new node, and then `fix_insert`
  reads the parent of a node that is not in the tree. `RbTree.Add` therefore requires
  the key to be absent, as the driver guarantees by calling `contains` first.
- Both hash tables run the load check, and may rehash, before looking for the key. So
  overwriting a present key can still double the capacity.
- In `hashl.h` a removed slot keeps its old key and value, but nothing reads them
  (every scan tests the status first), so `Removed` carries no payload.
- The lookup scans in `hashl.h` stop when they come back to the starting index. The
  model counts steps instead (at most the capacity), which visits the same slots.

## Findings

| source | as written | input that shows it | evidently intended | confidence | as-written member | corrected member |
|---|---|---|---|---|---|---|
| FINAL_EDA-20240920T135618Z-001/FINAL_EDA/hashl.h:41-52 | add stops at the first slot that is not OCCUPIED and inserts there, so a REMOVED slot before the key's slot receives a second copy of the key | capacity 4 and every key hashing to 0: add(1,a), add(2,b), remove(1), add(2,c) gives slots [2:c, 2:b, empty, empty] with count 2; then remove(2) leaves 2 present | overwrite the existing entry when the key is stored anywhere on its probe path, so keys stay distinct | high, not executed | ProbingHash.DuplicateAfterRemove | ProbingHash.AddFixed |

`ProbingHash.Add` is the add as written. It is correct on tables without tombstones,
and `ProbingHash.AddFixed` equals it there. The corrected add looks the key up first,
overwrites on a hit, and otherwise inserts at the first non-occupied slot. The driver
model (`WordCount.ProbingStep`) uses the add as written: the driver reaches add only
for an absent word, and for an absent key the as-written add is already correct.

## Left out

- Input and output in `main.cpp`: file reading, ICU-based tokenisation and accent
  removal, timing, sorting and printing of the results. Words enter the model as
  integer keys.
- `std::hash`: it is replaced by an arbitrary function parameter, so no property
  depends on its values.
- Memory management: destructors, `delete_tree`, and the `new` vector leaked by
  `inorder_traversal`. The traversal is modelled as the value `Inorder`.
- Exceptions: a throwing `at` returns `None`.
- `size_t` wrap-around of the counters and capacities: unreachable for any table
  that fits in memory.
- The `double` arithmetic of the load check: it is replaced by the exact integer
  comparison, which agrees for every capacity below 2^50.
- RbTree.Add: the red-black properties (no red node with a red child, equal black
  heights) are not claimed, because the source violates them (see the notes above).
  Only ordering, contents and the black root are proved.
- ProbingHash.Add: the invariant and map contracts are stated only for tables without
  tombstones, because with tombstones the source breaks them (see Findings).
- RbTree.SetAt: it does not claim that colours or balance are kept, only the keys and
  (with `SetAtView`) the map.
