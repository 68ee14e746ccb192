# Open-addressing hash table, modelled in Dafny

This project models `ru.itmo.java.HashTable`. It maps keys to values in one flat array of cells. Collisions are resolved by linear probing with wrap-around. A removed pair leaves a tombstone in its cell. When the table is full enough, it grows by rebuilding into a larger array.

The model is functional. A `Table` is an immutable value: the array as `seq<Slot>`, the load factor, the threshold and the size counter. Every operation returns the table it leaves behind. The three kinds of cell are `Empty` (Java `null`), `Live(key, value)` and `Tomb(key, value)` (an element whose `isDeleted` flag is set). Keys are hashed by a parameter `hash: K -> int`, which stands for `hashCode`. A Java `null` argument is `None` of an `Option`. A thrown exception is `Failure` of a `Result`.

The table invariant is `HashTable.Valid`. It says:
- the constructor's checks hold;
- `size` equals the number of live cells and is at most `threshold`, which is below the capacity;
- no key is live in two cells;
- every live pair can be reached from the start of its key's probe sequence without crossing an empty cell.

The abstract view of a table is `Occupancy.Contents`, the `map<K, V>` spelled out by its live cells. Every operation is specified against that map.

Files, one module each:
- `wrappers.dfy`: `Option` and `Result`.
- `slots.dfy`: the cell type, with the element's `Delete` and `isNotDeleted`.
- `occupancy.dfy`: live count, key uniqueness, the abstract map, and how a one-cell write changes them.
- `probing.dfy`: start index, probe positions, the lookup scan, the free-cell scan, and the reachability invariant.
- `sizing.dfy`: the constants, the threshold and the growth factor.
- `hashtable.dfy`: the table, its constructors and its operations.
- `properties.dfy`: facts that relate several calls.

## Model

| member | source | states |
|---|---|---|
| `HashTable.New` | src/main/java/ru/itmo/java/HashTable.java:29-35 | Fails with InvalidArgument exactly when capacity < 7, loadFactor <= 0.2 or loadFactor >= 1.0. Otherwise the table is well formed and all cells are empty. It has the requested capacity and load factor, size 0, an empty mapping, and threshold = floor(capacity * loadFactor), which lies in [1, capacity). |
| `HashTable.NewValid` | src/main/java/ru/itmo/java/HashTable.java:29-35 | A freshly constructed table satisfies the full invariant, whatever the hash function. |
| `HashTable.NewDefault` | src/main/java/ru/itmo/java/HashTable.java:17-19 | The default constructor succeeds with 127 cells, load factor 0.5, threshold 63 and size 0. |
| `HashTable.NewWithCapacity` | src/main/java/ru/itmo/java/HashTable.java:21-23 | Succeeds exactly when the capacity is at least 7; the load factor is 0.5. |
| `HashTable.NewWithLoadFactor` | src/main/java/ru/itmo/java/HashTable.java:25-27 | Succeeds exactly when 0.2 < loadFactor < 1.0; the capacity is 127. |
| `Sizing.Threshold` | src/main/java/ru/itmo/java/HashTable.java:34 | The threshold is the floor of capacity × load factor. For every accepted configuration it lies in [1, capacity). |
| `Sizing.GrowthFactor` | src/main/java/ru/itmo/java/HashTable.java:63 | ceil(1/loadFactor + 0.1) lies between 2 and 6, and times the load factor it exceeds 1. |
| `Sizing.GrownThresholdCoversCapacity` | src/main/java/ru/itmo/java/HashTable.java:63-66 | The grown capacity is at least double the old one. The grown threshold is at least the old capacity. |
| `Probing.JavaRem` | src/main/java/ru/itmo/java/HashTable.java:38 | Java's truncating `%`: the result lies strictly between -n and n, has the dividend's sign, and its magnitude is \|a\| mod n. |
| `Probing.StartIndex` | src/main/java/ru/itmo/java/HashTable.java:37-39 | The probe start lies in [0, capacity) and equals \|hash\| mod capacity. |
| `Probing.Dist` | src/main/java/ru/itmo/java/HashTable.java:53-54 | The number of wrap-around steps from the start to a cell is below the capacity, and that many steps lead to the cell. |
| `Probing.FindFrom` | src/main/java/ru/itmo/java/HashTable.java:47-59 | The lookup scan returns a cell only if that cell is live and holds the queried key, and no cell before it on the probe path is empty. It returns "not found" whenever it reaches an empty cell before any live cell holding the key. After one lap it stops as well. |
| `Probing.FindIndex` | src/main/java/ru/itmo/java/HashTable.java:41-60 | `getIndex` returns only the index of a live cell holding the key. |
| `Probing.FindFromReaches` | src/main/java/ru/itmo/java/HashTable.java:47-58 | A live cell holding the key is found if no cell before it on the probe path is empty. Tombstones and other keys' cells do not stop the scan. |
| `Probing.FindIndexCorrect` | src/main/java/ru/itmo/java/HashTable.java:41-60 | Under the invariant, `getIndex` finds a key iff the key is in the abstract map. When it finds the key, the cell it returns holds exactly the key's mapped value. |
| `Probing.LookupScan` | src/main/java/ru/itmo/java/HashTable.java:41-60 | The Java loop (hash pre-check, increment-and-wrap, lap stop) returns the same result as the recursive lookup scan. |
| `Probing.FreeFrom` | src/main/java/ru/itmo/java/HashTable.java:86-90 | The insertion scan returns a cell that is empty or a tombstone, and every cell before it on the probe path is live. It returns nothing only if every cell on the path is live. |
| `Probing.FreeFromFinds` | src/main/java/ru/itmo/java/HashTable.java:85-90 | If some cell is not live, the insertion scan finds a cell, so the Java loop terminates. |
| `Probing.FreeIndex` | src/main/java/ru/itmo/java/HashTable.java:86-90 | A new key is written to the first cell on its probe path that is empty or a tombstone. |
| `Probing.FreeScan` | src/main/java/ru/itmo/java/HashTable.java:86-90 | The Java loop "advance while the cell is live" stops at a non-live cell, every earlier cell on the probe path is live, and that cell is the same first free cell. |
| `Probing.FirstFreeBefore` | src/main/java/ru/itmo/java/HashTable.java:86-90 | The first non-live cell of a probe path comes no later than any other non-live cell, and is that cell when every cell before it is live. |
| `Probing.ChainsAfterWrite` | src/main/java/ru/itmo/java/HashTable.java:87-97 | Writing a non-empty cell keeps every live pair reachable, provided a newly live pair is reachable itself. Tombstones never turn back into empty cells. |
| `Occupancy.LiveCount` | src/main/java/ru/itmo/java/HashTable.java:119-121 | The number of live cells never exceeds the array length. |
| `Occupancy.LiveCountFull` | src/main/java/ru/itmo/java/HashTable.java:87 | The live count equals the length iff every cell is live, which is when the insertion loop could not stop. |
| `Occupancy.LiveCountUpdate` | src/main/java/ru/itmo/java/HashTable.java:85 | Rewriting one cell changes the live count by exactly the change in that cell's liveness. |
| `Occupancy.ContentsSize` | src/main/java/ru/itmo/java/HashTable.java:119-121 | With unique keys, the number of live cells equals the number of pairs in the abstract map. |
| `Occupancy.ContentsOverwrite` | src/main/java/ru/itmo/java/HashTable.java:93-97 | Writing a new value into a live cell maps that cell's key to the new value and changes nothing else. |
| `Occupancy.ContentsDelete` | src/main/java/ru/itmo/java/HashTable.java:115 | Turning a live cell into a tombstone removes exactly that cell's key from the map. |
| `Occupancy.ContentsPlace` | src/main/java/ru/itmo/java/HashTable.java:97 | Writing an absent key into a cell that is not live adds exactly that pair and keeps keys unique. |
| `HashTable.Get` | src/main/java/ru/itmo/java/HashTable.java:101-107 | Returns the value the abstract map holds for the key, and `None` for an absent key or a null key. |
| `HashTable.Size` | src/main/java/ru/itmo/java/HashTable.java:119-121 | Returns the number of pairs in the abstract map. It is below the capacity. |
| `HashTable.PlaceNew` | src/main/java/ru/itmo/java/HashTable.java:85-97 | The new pair lands in the first empty-or-tombstone cell of its probe path, and no other cell changes. The mapping gains exactly that pair, the size grows by 1, and the invariant is kept. An array without tombstones stays without them. |
| `HashTable.Reinsert` | src/main/java/ru/itmo/java/HashTable.java:67-72 | Re-inserting the source array's cells into the new table yields exactly the source's mapping. The size equals the source's live count, no tombstones appear, and the invariant holds throughout. |
| `HashTable.ReinsertStep` | src/main/java/ru/itmo/java/HashTable.java:68-71 | A live source cell adds its pair, whose key is not yet present, and the size stays below the new threshold. A tombstone or empty cell adds nothing. |
| `HashTable.Resize` | src/main/java/ru/itmo/java/HashTable.java:62-73 | The capacity is multiplied by the growth factor, so it at least doubles. The mapping and the size are unchanged, and every tombstone is gone. The new threshold is at least the old capacity, which is above the size. |
| `HashTable.Store` | src/main/java/ru/itmo/java/HashTable.java:80-98 | The key ends up mapped to the value and the previous value is returned. For a present key, only that key's cell changes, in place. There is no growth, and the size and the threshold stay the same. For a new key, the size grows by 1, and the capacity grows exactly when size >= threshold. The invariant is kept. |
| `HashTable.Put` | src/main/java/ru/itmo/java/HashTable.java:75-98 | A null key or value fails with NullKeyOrValue and returns no new table. Otherwise the result is as for `Store`: the updated mapping, the previous value, and the size change. |
| `HashTable.Remove` | src/main/java/ru/itmo/java/HashTable.java:109-117 | For a present key, the stored value is returned and the key leaves the mapping. The size drops by 1, and the load factor and the threshold stay the same. Only that key's cell changes: it becomes a tombstone with the same key and value. An absent or null key returns `None` and leaves the table unchanged. |
| `Slots.Slot.IsNotDeleted` | src/main/java/ru/itmo/java/HashTable.java:140-142 | An element is not deleted exactly when it is not a tombstone, that is, when its cell is live. The lookup and insertion scans test it where `getIndex` and `put` do. |
| `Slots.Slot.Delete` | src/main/java/ru/itmo/java/HashTable.java:136-142 | A deleted element is no longer "not deleted" but keeps its key and its value. |
| `TableProperties.ReinsertIsPut` | src/main/java/ru/itmo/java/HashTable.java:68-90 | The `put` that `resize` issues for a pair of the old array never finds the key and never resizes again. It is exactly the new-key insertion. |
| `TableProperties.ThresholdFollowsCapacity` | src/main/java/ru/itmo/java/HashTable.java:34-72 | The threshold stays floor(capacity * loadFactor) after every `put` and `remove`: the constructor sets it, `resize` recomputes it for the grown array, and nothing else changes either value. |
| `TableProperties.PutThenGet` | src/main/java/ru/itmo/java/HashTable.java:75-107 | After `put(k, v)`, `get(k)` returns `v`, and every other key reads as before. |
| `TableProperties.PutTwice` | src/main/java/ru/itmo/java/HashTable.java:80-98 | A second `put` of the same key returns the first value, keeps the size, and its value is what `get` returns afterwards. |
| `TableProperties.RemoveThenGet` | src/main/java/ru/itmo/java/HashTable.java:109-117 | After removing a present key, `get` returns `None` and the size has dropped by 1. Putting the key back restores the size. |
| `TableProperties.RemoveLeavesTomb` | src/main/java/ru/itmo/java/HashTable.java:109-117 | Removing the key of a live cell turns exactly that cell into a tombstone with the same key and value and takes one off the size. Nothing else in the table changes. |
| `TableProperties.PlaceNewAtOrBefore` | src/main/java/ru/itmo/java/HashTable.java:85-97 | A new key lands no further along its probe path than any empty-or-tombstone cell, and on that cell itself when every cell before it on the path is live. |
| `TableProperties.PutBackReusesTomb` | src/main/java/ru/itmo/java/HashTable.java:75-117 | Putting a removed key back does not grow the table. It lands no further along the key's probe path than the tombstone the removal left, and on the tombstone itself when every cell before it on the path is live. |
| `TableProperties.SevenCellTable` | src/main/java/ru/itmo/java/HashTable.java:29-35 | `new(7, 0.5)` has threshold 3. A new key grows it to 21 cells only when it already holds 3 pairs, so the fourth new key triggers growth, not the third. |

## Left out

- The `float` load factor is modelled as an exact real number. Float rounding of `data.length * loadFactor` and of `1.0 / loadFactor + 0.1`, and the fact that `0.2f` is not exactly 0.2, are not modelled.
- Java's 32-bit `int` is not modelled. The hash is any integer, and the grown capacity `data.length * factor` cannot overflow in the model.
- `hashCode` and `equals` are modelled as the parameter `hash` and Dafny equality. Hash and equality are consistent by construction, so the hash comparison before `equals` in `getIndex` never decides anything.
- Mutation is modelled by returning a new table. The element objects are plain values, so aliasing and object identity are not modelled. When `put` overwrites a present key, Java stores the new (equal) key object; the model cannot tell the two apart.
- The insertion loop of `put` has no lap stop in Java. It would spin forever on an array whose cells are all live. The model's scan stops after one lap and returns `None`. `Probing.FreeFromFinds` proves that this case cannot occur while the invariant holds.
- Probing.FindFrom: the one-lap probe bound is not stated as a postcondition of its own. It is carried by the step parameter `j < |data|` and the termination measure, and a found cell's step `Dist(...)` is below the capacity.
- HashTable.New: a NaN load factor is not modelled, because a `real` cannot be NaN. In Java both comparisons at HashTable.java:30 are false for NaN, so `new HashTable(Float.NaN)` succeeds with `threshold = (int) NaN = 0` (line 34). The first `put` then calls `resize` (line 83), which computes `(int) Math.ceil(NaN) = 0` and so allocates an array of 0 cells (lines 63 and 65). After `size++`, `getHashCode` divides by `data.length` (line 38) and throws `ArithmeticException`, leaving a table with no cells and size 1.
- The null check in the `HashTableElement` constructor is unreachable because `put` checks first, so it is not modelled.
- The unused `java.util.Map` import is not modelled.
- There is no concurrency to model.

## Notes on the code

- `new(7, 0.5)` has threshold 3, and `put` compares `size >= threshold` before it counts the new key. So the fourth new key grows the table, not the third (`TableProperties.SevenCellTable`).
- `getHashCode` applies `Math.abs` to the remainder, not to the hash, so it never sees `Integer.MIN_VALUE`. The index equals |hash| mod capacity for every hash (`Probing.StartIndex`).
