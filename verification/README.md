# Hash tables, routes and viruses — a Dafny model

This project models the sequential core of a small Python coursework system:

- an **infinite hash table**, a trie of 27-slot nodes that routes a key by
  the character at the node's level;
- a **double-key table**, an open-addressing table of `(key1, sub-table)`
  entries with a fixed growth schedule and a cluster re-insertion on delete;
- **routes** of computers (series and two-way splits), their persistent
  edit operations, and the `follow_path` walk that lets a virus record the
  computers it passes;
- the **Top**, **Bottom** and **Lazy** virus branch policies;
- the **computer manager**, a list of computers with lookups and grouping
  by hacking difficulty.

Mutable Python objects become immutable Dafny values. Every operation
returns its new state. Python exceptions become `Err` values of `Result`
(module `Outcomes`). Arrays are sequences. The `LinkedStack` of
`follow_path` is a sequence whose last element is the top of the stack.

| file | module | what it holds |
|---|---|---|
| outcomes.dfy | `Outcomes` | `Error`, `Option`, `Result` |
| computer.dfy | `Computers` | the `Computer` record |
| lexicographic.dfy | `Lexicographic` | Python string order and a sort |
| infinite_hash_table.dfy | `InfiniteHashTable` | the trie, its invariant, get/set/delete, locations, key listings |
| ring.dfy | `Ring` | positions on a wrap-around probe sequence |
| poly_hash.dfy | `PolyHashing` | the `hash1`/`hash2` polynomial hash |
| sub_tables.dfy | `SubTables` | the inner `key2 -> value` tables, abstractly |
| double_key_table.dfy | `DoubleKeyTable` | the outer table and its operations |
| double_key_laws.dfy | `DoubleKeyLaws` | the invariant, reads, stores, rehash |
| double_key_delete.dfy | `DoubleKeyDelete` | delete and its cluster walk |
| rehash_example.dfy | `RehashExample` | three inserts after which a rehash loses a pair |
| route.dfy | `Routes` | the route datatype and its edits |
| virus.dfy | `Viruses` | viruses and their branch choice |
| follow_path.dfy | `Traversal` | `follow_path` and its characterisation |
| computer_manager.dfy | `ComputerManagers` | the computer manager |

## Model

| member | source | states |
|---|---|---|
| InfiniteHashTable.Hash | infinite_hash_table.py:30-33 | the slot is at most 26; it is 26 exactly when the key has no character at the node's level; otherwise it is that character's code modulo 26 |
| InfiniteHashTable.HashSeparates | infinite_hash_table.py:30-33 | on the key alphabet 'a'..'z', two keys that share a slot below the overflow slot have the same character at that level |
| InfiniteHashTable.GetMatchesItems | infinite_hash_table.py:35-45 | in a well-formed table, `t[k]` returns `v` exactly when `(k, v)` is among the pairs `items()` yields |
| InfiniteHashTable.AbsentHasNoItem | infinite_hash_table.py:136-147 | when `k in t` is false, no pair of `items()` has key `k` |
| InfiniteHashTable.Set | infinite_hash_table.py:47-75 | `t[k] = v` keeps the table well formed (count equals the number of items, nested tables hold at least two pairs one level down); the count rises by one exactly when `k` was absent; the items become `(k, v)` plus the old pairs with other keys |
| InfiniteHashTable.NestedSlot | infinite_hash_table.py:56-62 | a set that descends into a nested table adds one to this node's count only when the key was new in the nested table, and leaves a well-formed node holding `(k, v)` and the other old pairs |
| InfiniteHashTable.CollisionSlot | infinite_hash_table.py:63-75 | a set that meets a leaf with another key replaces it by a table one level down holding both pairs, and raises this node's count by exactly one |
| InfiniteHashTable.CollisionFits | infinite_hash_table.py:68-72 | the two colliding keys agree up to and including this level's character, so both are long enough for the next level and hash to the same slot here |
| InfiniteHashTable.SetIntoEmpty | infinite_hash_table.py:70-72 | setting a key in a fresh table gives the single-leaf table the collision branch builds |
| InfiniteHashTable.SetThenGet | infinite_hash_table.py:35-75 | after `t[k] = v`, `t[k]` is `v`, and every other key reads as before |
| InfiniteHashTable.Delete | infinite_hash_table.py:77-95 | `del t[k]` fails with `KeyError` exactly when `k` is absent; otherwise the table stays well formed (so no nested table is left with fewer than two pairs), its count drops by one, and its items are the old ones without key `k` |
| InfiniteHashTable.DeleteSlot | infinite_hash_table.py:82-90 | after a delete inside a nested table, the parent's count drops by the child's loss, and the slot is cleared when the child is empty or collapsed to its pair when the child holds one |
| InfiniteHashTable.DeleteThenGet | infinite_hash_table.py:77-95 | after a successful `del t[k]`, `k in t` is false and every other key reads as before |
| InfiniteHashTable.GetLocation | infinite_hash_table.py:120-133 | `get_location(k)` succeeds exactly when `k in t`; it lists one slot per level walked, each the key's hash at that level, and the path ends at the leaf holding `k` with its value |
| InfiniteHashTable.GatherKeysAreItemKeys | infinite_hash_table.py:157-165 | `_gather_keys` lists the keys of the pairs `items()` yields, in the same order |
| InfiniteHashTable.SortKeys | infinite_hash_table.py:149-155 | `sort_keys` is ordered by Python's string order and is a permutation of the keys of `items()` |
| InfiniteHashTable.KeysDistinct | infinite_hash_table.py:97-108 | no key occurs twice among the items of a well-formed table, so `len(t)` counts distinct keys |
| Lexicographic.LessEqTotal | infinite_hash_table.py:154 | any two strings are ordered one way or the other |
| Lexicographic.LessEqTransitive | infinite_hash_table.py:154 | the string order is transitive |
| Lexicographic.LessEqAntisymmetric | infinite_hash_table.py:154 | two strings each at most the other are equal |
| Lexicographic.Sort | infinite_hash_table.py:154 | the result is sorted and is a permutation of the input |
| PolyHashing.PolyHash | double_key_table.py:44-56 | the hash lies in `[0, size)` for any size of at least 2, and is 0 for the empty key |
| PolyHashing.SingleCharHash | double_key_table.py:51-56 | a one-character key hashes to its code point modulo the size |
| PolyHashing.HashLoop | double_key_table.py:44-70 | the loop with `a = 31417` and `a = a * 31 % (size - 1)` computes the recursive hash definition |
| DoubleKeyTable.Hash2 | double_key_table.py:58-70 | `hash2` is the same hash over the sub-table's size, and lies below that size |
| DoubleKeyTable.New | double_key_table.py:31-42 | a new table is empty, has the first scheduled size, and its inner schedule defaults to the outer one |
| DoubleKeyTable.Probe | double_key_table.py:87-111 | the probe from `hash1(key1)` stops at `key1`'s slot or at the first empty slot, passing only slots of other keys on the way; it gives up exactly when every slot holds another key |
| DoubleKeyTable.LinearProbe | double_key_table.py:87-111 | the loop of at most `table_size` steps of `position = (position + 1) % table_size` stops where the probe definition does |
| DoubleKeyTable.Position | double_key_table.py:72-111 | the slot is the one the probe stops at; a lookup fails with `KeyError` unless the key is found there, and an insert also accepts the first empty slot, failing only when every slot holds another key |
| DoubleKeyTable.TopKeys | double_key_table.py:171-175 | `keys()` lists one key1 per occupied slot, and a key1 is listed exactly when some slot holds it |
| DoubleKeyTable.AllValues | double_key_table.py:185-191 | `values()` lists a value exactly when it is a value of some stored sub-table |
| DoubleKeyTable.Keys | double_key_table.py:166-207 | `keys(k)` fails with `KeyError` exactly when `k` is not found; with no key it lists the top-level keys |
| DoubleKeyTable.Values | double_key_table.py:180-207 | `values(k)` fails with `KeyError` exactly when `k` is not found; with no key it lists every value |
| DoubleKeyTable.Store | double_key_table.py:232-244 | the probed slot holds `key1` with a sub-table mapping `key2` to `data`, all other slots are unchanged, and the count rises exactly when `key1`'s sub-table was missing or empty |
| DoubleKeyTable.Set | double_key_table.py:232-248 | `t[key1, key2] = data` fails with `KeyError` exactly when every slot holds another key1; otherwise the pair is stored, and when the count then exceeds half the table size the result is that table rehashed, else the stored table itself |
| DoubleKeyTable.Rehash | double_key_table.py:279-296 | the size index always advances; past the end of the schedule nothing else changes; otherwise the array takes the next size and holds the old entries spread over it by `hash1` (see DoubleKeyLaws.SpreadKeepsLast), and the count becomes the number of previously occupied slots |
| DoubleKeyTable.Spread | double_key_table.py:289-295 | every entry left in the new array came from the old one and sits exactly at its new `hash1`, with no probing |
| DoubleKeyTable.Walk | double_key_table.py:263-269 | the re-insertion walk keeps the array size and only moves entries that were already stored |
| DoubleKeyTable.Delete | double_key_table.py:250-269 | `del t[key1, key2]` succeeds exactly when `t[key1, key2]` does; the count drops by one exactly when the sub-table held only that pair |
| DoubleKeyLaws.GetMatchesSlots | double_key_table.py:222-230 | under the invariant, `t[key1, key2]` returns `v` exactly when a slot holds `key1` with `(key2, v)` in its sub-table |
| DoubleKeyLaws.ContainsMatchesSlots | double_key_table.py:209-220 | under the invariant, `(key1, key2) in t` holds exactly when a slot holds `key1` with `key2` among its sub-table's keys |
| DoubleKeyLaws.KeysOfMatchesContains | double_key_table.py:166-207 | `keys(key1)` fails exactly when no slot holds `key1`, and otherwise lists `key2` exactly when `(key1, key2) in t` |
| DoubleKeyLaws.ValuesOfMatchesGet | double_key_table.py:180-207 | `values(key1)` raises exactly when `keys(key1)` does, and otherwise lists `v` exactly when `t[key1, key2] == v` for some `key2` |
| DoubleKeyLaws.LenMatchesKeys | double_key_table.py:305-309 | under the invariant, `len(t)` is the number of key1s `keys()` lists |
| DoubleKeyLaws.TopKeysSlot | double_key_table.py:171-175 | one slot contributes its key1 to `keys()`, or nothing when it is empty |
| DoubleKeyLaws.TopKeysAppend | double_key_table.py:171-175 | `keys()` lists the slots in order: the listing of two runs of slots is the first's followed by the second's |
| DoubleKeyLaws.AllValuesSlot | double_key_table.py:185-191 | one slot contributes every value of its sub-table, in the model's insertion order, or nothing when it is empty |
| DoubleKeyLaws.AllValuesAppend | double_key_table.py:185-191 | `values()` lists the slots in order: the listing of two runs of slots is the first's followed by the second's |
| DoubleKeyLaws.NewIsEmpty | double_key_table.py:31-42 | a new table meets the invariant, every read fails with `KeyError`, and `keys()` is empty |
| DoubleKeyLaws.StoreKeepsInv | double_key_table.py:232-244 | a store keeps the invariant: the count equals the number of occupied slots, no key1 occurs twice, every key1 is found by probing, and no slot holds an empty sub-table |
| DoubleKeyLaws.SetThenGet | double_key_table.py:222-248 | after a set that triggers no rehash, the invariant holds, the pair reads back as `data`, and every other pair reads as before |
| DoubleKeyLaws.SpreadKeepsLast | double_key_table.py:289-296 | a slot of the rehashed array is empty exactly when no old entry hashes there, and otherwise holds the last old entry, in slot order, that does |
| DoubleKeyLaws.EntrySurvives | double_key_table.py:289-296 | an entry survives a rehash exactly when no later old entry has the same new home |
| DoubleKeyLaws.SpreadNeverGains | double_key_table.py:289-296 | the rehashed array holds at most as many entries as the old one |
| DoubleKeyLaws.RehashCountsAll | double_key_table.py:279-296 | after a rehash within the schedule, the count is at least the number of occupied slots |
| DoubleKeyDelete.DeleteKeepsInv | double_key_table.py:250-269 | a delete keeps the invariant: emptying a slot and re-inserting the rest of its cluster leaves every key1 findable, unique and counted |
| DoubleKeyDelete.DeleteThenGet | double_key_table.py:250-269 | after `del t[key1, key2]` the pair reads as `KeyError` and every other pair reads as before |
| DoubleKeyDelete.EmptiedGroups | double_key_table.py:260-269 | when the sub-table empties, `key1` is no longer found and every other key1 reaches the sub-table it had |
| DoubleKeyDelete.ShrinkKeepsInv | double_key_table.py:256-258 | a delete that leaves the sub-table non-empty keeps the invariant, also in a full table |
| DoubleKeyDelete.ShrunkGroups | double_key_table.py:256-258 | when the sub-table keeps other pairs, `key1` reaches the shrunk sub-table and every other key1 reaches the sub-table it had, also in a full table |
| RehashExample.RehashLosesEntry | double_key_table.py:279-296 | with sizes `[5, 13]`, storing `n`, `a`, `b` rehashes on the third insert; `n` and `a` share a home in the new array, so `n`'s pair can no longer be read while the count says 3 and two slots are occupied |
| SubTables.PutThenLookup | double_key_table.py:244 | after `sub[k] = v`, `sub[k]` is `v` and every other key reads as before |
| SubTables.RemoveThenLookup | double_key_table.py:258 | after `del sub[k]`, `sub[k]` fails and every other key reads as before |
| SubTables.Remove | double_key_table.py:258 | removal fails with `KeyError` exactly when the key is absent, and otherwise drops exactly that key's pair |
| Routes.AddComputerBefore | route.py:92-98 | `Route.add_computer_before(c)` is a series of `c` before the old route, whose computers are `c` then the old list |
| Routes.AddEmptyBranchBefore | route.py:100-105 | `Route.add_empty_branch_before()` is a split of two empty branches before the old route, with the same computers |
| Routes.RemoveComputer | route.py:46-53 | `remove_computer` fails with `ValueError` exactly when the series holds no computer, and otherwise empties the slot and keeps what follows |
| Routes.SeriesAddComputerBefore | route.py:55-60 | the new computer comes first, then the series |
| Routes.SeriesAddComputerAfter | route.py:62-67 | the computers are the series' own, the new one, then those that followed |
| Routes.SeriesAddEmptyBranchBefore | route.py:70-74 | an empty split before the series, with the same computers |
| Routes.SeriesAddEmptyBranchAfter | route.py:76-81 | the series' computer, then an empty split, with the same computers |
| Routes.RemoveBranch | route.py:30-32 | what remains is the split's following route; the split's computers are the top's, the bottom's, then those of what remains |
| Viruses.AddComputer | virus.py:13-14 | the computer is appended, and the earlier entries are unchanged |
| Viruses.SelectBranch | virus.py:21-56 | Top always takes the top branch and Bottom the bottom one; only Lazy can fail, with `AttributeError`, when both branches start with a series and one of them holds no computer |
| Viruses.LazySelect | virus.py:33-56 | when both branches start with a computer: top when its difficulty is strictly lower, bottom when strictly higher, stop on a tie; when only the top starts with a series, bottom; otherwise top |
| Viruses.LazyAvoidsHarder | virus.py:33-56 | Lazy never enters a branch whose first computer is harder than the other's, and never one that starts with a series while the other does not |
| Viruses.LazyMirror | virus.py:33-56 | swapping the branches swaps Lazy's decision, when at least one branch starts with a series |
| Traversal.FollowPath | route.py:107-137 | the walk keeps the virus's kind and only appends to what it recorded, also when it raises; it raises only by popping an empty stack or by Lazy's failed read |
| Traversal.FollowPathVisitsOnce | route.py:107-137 | whatever the virus, and whether or not the walk raises, it records each computer of the current and stacked routes at most once, and nothing else |
| Traversal.Follow | route.py:107-137 | `follow_path` appends to the virus's list only computers of the route, each at most as often as `add_all_computers` lists it, also when it raises |
| Traversal.FollowPathVisits | route.py:107-137 | for Top and Bottom, the walk records the chosen-branch walk of the current route and of the stacked routes from the top down, and succeeds exactly when the last route it handles ends in a series; otherwise, with all that recorded, it pops an empty stack |
| Traversal.FollowVisits | route.py:107-137 | for Top and Bottom, `follow_path` records the route's chosen-branch walk and succeeds exactly when the route ends in a series; otherwise it pops an empty stack |
| Traversal.SeriesOnlyVisitsAll | route.py:128-135 | on a route without splits, Top and Bottom record exactly `add_all_computers` |
| Traversal.DiamondConstant | route.py:107-137 | on `Series(A, Split(Series(B), Series(C), Series(D)))` Top records `[A, B, D]` and Bottom `[A, C, D]` |
| Traversal.DiamondLazy | route.py:107-137 | on the same route Lazy records `[A, B, D]` when B is easier, `[A, C, D]` when C is easier, and stops after `[A]` on a tie |
| Traversal.EmptyEndFails | route.py:136-137 | an empty route, or one ending in an empty split, makes every virus pop an empty stack, keeping the computers recorded before |
| Traversal.LazyFailedReadKeeps | route.py:107-137 | Lazy raises `AttributeError` at a split whose top series holds no computer, keeping the computer recorded before the split |
| Traversal.WalkIgnoresRecord | route.py:107-137 | what a walk appends, and whether it raises, do not depend on what the virus had recorded before |
| Traversal.EmptyBranchBeforeWalk | route.py:100-105 | `add_empty_branch_before` changes no virus's walk of the route |
| Traversal.AddBeforeWalk | route.py:92-98 | after `add_computer_before(c)` every virus records `c` first and then walks the old route as before; in front of an empty route the walk no longer raises |
| Traversal.RemoveComputerWalk | route.py:46-53 | after `remove_computer` every virus walks the route as before, recording `None` where it recorded the removed computer |
| ComputerManagers.New | computer_manager.py:6-7 | a new manager holds no computers |
| ComputerManagers.Add | computer_manager.py:9-10 | the computer is appended at the end and the others stay where they were |
| ComputerManagers.Remove | computer_manager.py:12-13 | fails with `ValueError` exactly when the computer is absent; otherwise exactly its first occurrence is dropped and the rest keep their order |
| ComputerManagers.Edit | computer_manager.py:15-17 | fails exactly when the old computer is absent; otherwise the list is `remove_computer`'s result (first copy of the old dropped, the rest in order) with the new computer appended, so the length is kept and one copy of the old is traded for the new |
| ComputerManagers.AddThenRemove | computer_manager.py:9-13 | adding then removing a computer restores the stored multiset, and the very list when the computer was not stored before |
| ComputerManagers.EditSelf | computer_manager.py:15-17 | editing a stored computer into itself keeps the multiset and moves a copy to the end |
| ComputerManagers.ComputersWithDifficulty | computer_manager.py:19-20 | a computer is listed exactly when it is stored and has that difficulty |
| ComputerManagers.WithDifficultyMembers | computer_manager.py:19-20 | the filter keeps exactly the stored computers of that difficulty |
| ComputerManagers.WithDifficultyAppend | computer_manager.py:19-20 | filtering a concatenation is concatenating the filtered parts, so stored order is kept |
| ComputerManagers.AddThenWithDifficulty | computer_manager.py:9-20 | an added computer appears at the end of its own difficulty's list and in no other |
| ComputerManagers.WithDifficultyCounts | computer_manager.py:19-20 | the filter keeps every copy of a computer of that difficulty and none of any other |
| ComputerManagers.SortedDifficulties | computer_manager.py:26-28 | `sorted(set(...))` lists each stored difficulty once, strictly ascending |
| ComputerManagers.GroupByDifficulty | computer_manager.py:22-32 | `[]` for an empty manager; otherwise the groups are non-empty, each holds exactly the computers of its difficulty in stored order, their difficulties strictly ascend, and every stored difficulty has a group |
| ComputerManagers.GroupsArePermutation | computer_manager.py:22-32 | the concatenated groups are a permutation of the stored computers |

## Left out

- `iter_keys` and `iter_values` (double_key_table.py:121-163): with a key they build a generator and discard it; `keys` and `values` model the same listings.
- The order inside one sub-table is not modelled. The source lists `keys(k)` and `values(k)`, and the values of one key1's group within `values()`, by walking the sub-table's array slot by slot, where `hash2` placed them (double_key_table.py:145-149, 161-163). The model treats a sub-table as a finite map and lists its pairs in insertion order. Across key1 groups, `keys()` and `values()` do follow the outer slot order.
- `LinearProbeTable`, `ArrayR` and `LinkedStack` (`data_structures/`) are not part of this model. A sub-table is its list of pairs plus its `table_size`. An array is a sequence. The stack is a sequence, and popping an empty one is the `StackEmpty` error.
- A sub-table's own growth (`sub_table._rehash()`, double_key_table.py:292-293, and inside `sub_table[key2] = data`) keeps its pairs and is modelled as doing nothing. `FullError` from a full sub-table is not modelled.
- Size schedules with a size below 2, where `hash1` would reduce modulo 0 or 1, are excluded by the `Schedule` precondition.
- DoubleKeyDelete.DeleteKeepsInv: requires a free slot (`count < table_size`). The load-factor rehash keeps one free only while the size schedule lasts. Once `_rehash` has run past the end of the schedule it returns without growing (double_key_table.py:280-281), so a table can fill up, for instance with `sizes=[5]` and five key1s; the lemma says nothing about deleting from such a full table. The cluster walk also stops after `table_size` steps, where the source loop has no bound; with a free slot the walk meets an empty slot sooner, so the cut can only matter for a full table.
- DoubleKeyDelete.DeleteThenGet: requires a free slot, as above.
- DoubleKeyDelete.EmptiedGroups: requires a free slot, as above.
- DoubleKeyLaws.SetThenGet: covers only sets that trigger no rehash. A rehash can lose pairs (RehashExample.RehashLosesEntry), so no such law holds across one.
- InfiniteHashTable.Set: keys are restricted to 'a'..'z'. Two distinct keys of equal length whose characters agree modulo 26 at every position (such as "G" and "a", or "Gb" and "ab") collide at every level, and once both are used up they keep meeting in the overflow slot, so the source's collision branch recurses without end. Keys that differ modulo 26 at some position, or differ in length, separate. Within 'a'..'z' distinct characters never agree modulo 26, so no such pair exists. `Set` also requires the key to agree with the node's stored keys on the first `level` characters. This holds for every key at level 0 and for every key the table routes down.
- Traversal.FollowVisits: constant viruses only, as for FollowPathVisits below.
- Traversal.FollowPathVisits: characterises the Top and Bottom walks completely; for Lazy the walk is bounded by Traversal.FollowPathVisitsOnce and fixed on the example route by Traversal.DiamondLazy, without a closed form.
- `RiskAverseVirus` (virus.py:59-110) is left out: it works with floating-point division, and on a one-sided split it reads `.store.top` and `.store.bottom` of the branch that is not a series, which raises `AttributeError` when that branch is empty (its `store` is `None`). `FancyVirus` (virus.py:113-120) is left out because its body is only `pass`.
- `computer_organiser.py` is left out: it is built on `mergesort` and `binary_search`, which are not part of this model.
- The `__str__` methods and the `__main__` demo print text and are left out.
- The `Computer` record keeps its fields only for equality. `computer.py` is not part of this model.
