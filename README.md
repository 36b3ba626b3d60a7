# Two-level address-keyed hash table (hash.c), modelled in Dafny

The table maps a (key, uid) pair to a pointer-sized value, and it has two levels:

- **Buckets.** `get_bucket_index` picks a top-level bucket. A "shared" key always goes to the last bucket. Any other key goes to `hash32(pointer) % (BUCKETS_AMNT - 2)`.
- **Slots.** Every bucket except the last owns a sub-table of 32 slots, indexed by `uid % 32`.
- **Entry lists.** Each slot lazily owns an array-backed list of items. The list is created on first insert with `INIT_SUBLIST_SIZE` room. It doubles when full. A removal shift-deletes the item. The list is released when it becomes empty, and shrinks by half (never below the minimum) when it is under a quarter full.

The model keeps the source's shape:

- `EntryLists.EntryList`, `SubTables.SubTable` and `Tables.Table` are classes over `array`s. Each mirrors `ht_subentry_list`, `ht_subtable` and `ht` (with its `ht_entry` buckets). A NULL pointer is a `null` reference.
- Each class method is proved against a value-level specification:
  - `EntryList.View()` is a `ListSpec.ListView`;
  - `SubTable.Slots` is a sequence of optional lists;
  - `Table.Buckets` is a `TableSpec.TableView`.
- The specification functions in `ListSpec` and `TableSpec` carry the contracts. `ListProperties` and `TableProperties` relate the operations to each other.

A key is a pair `Key(addr, text)`: the `const char*` pointer value and the string it points at. The source uses both halves:

- it hashes the pointer;
- `get_entry_item` compares strings with `strcmp`;
- `ht_remove_entry` compares pointers with `==`.

The lemma `TableProperties.ContentsMatchIsNotIdentityMatch` shows the consequence. Take a query key whose string is stored under another pointer. When both pointers hash to the same bucket and no item of the slot has the query's pointer, lookup finds the stored key but removal does not remove it. When the pointers hash to different buckets, lookup looks in another bucket and usually misses.

The macros `BUCKETS_AMNT` and `INIT_SUBLIST_SIZE` and the hash primitive `jhash` are not defined in hash.c. They are fields of a `HashTypes.Config` parameter:

- `SHARED_BUCKET_INDEX` is `bucketsAmnt - 1`, as the comment at hash.c:21 says;
- `bucketsAmnt >= 3` and `initSublistSize >= 1`;
- the table is created with `bucketsAmnt` buckets.

### Where the model departs from the code

Where the code is undefined, the model either states a precondition or fixes the code. Each case is listed here.

- **Shared insert.** The creation loop (hash.c:44) stops before the last bucket, so the shared bucket never gets a sub-table. `ht_add_entry` with `shared` set then dereferences NULL (hash.c:80-81). `Tables.Table.AddEntry` therefore requires the target bucket to have a sub-table. `TableProperties.SharedBucketHasNoSubtable` states that on a well-formed table this never holds for a shared key.
- **Emptied list.** When a removal empties a list, the code frees it but leaves the slot pointing at freed memory. It then reads the freed list for the shrink test (hash.c:217-226). The model instead releases the list, clears the slot and stops. A later insert into that slot starts a new list (`TableProperties.AddToEmptySlot`).
- **Return value.** `ht_remove_entry` has no `return` on its success path (hash.c:242). The model returns 0 there, and -1 when nothing matches.
- **Missing sub-table or list in removal.** The NULL checks of `ht_remove_entry` (hash.c:169-192) report and carry on, then dereference. `Tables.Table.RemoveEntry` requires the addressed slot to hold a list (`TableSpec.HasList`).
- **Empty list in the removal scan.** The removal scan (hash.c:195-207) needs a list of at least one item. Lists in the model are never empty, because an emptied list is released. `EntryLists.EntryList.FindByIdentity` requires `count >= 1`.
- **Bucket index of the enumeration.** `print_entries_in_subtable` indexes `table->entries[bucket_index]` without a bound check (hash.c:246), with an index the caller supplies. `Tables.Table.EntriesInSubtable` requires `bucketIndex < capacity`.
- **Empty table.** For capacity 0, `table->capacity - 1` wraps around in the creation loop (hash.c:44), and the loop writes past the zero-sized block. `Tables.Table.constructor` requires `capacity >= 1`.
- **Key equality.** Lookup compares contents and removal compares pointers. Both are kept as written.
- **Sub-bucket index.** `uid % subtable->capacity` converts the `int` uid to `size_t` first. The model does the same (`SubBucketIndex`). `SubBucketIndexIsResidue` shows that for 32 slots a negative uid still lands on its residue modulo 32.

## Model

| member | source | states |
|---|---|---|
| AddressHasher.BucketIndex | hash.c:14-22 | a shared key gets the last bucket whatever its pointer; any other key gets a bucket below `bucketsAmnt - 2`, never one of the last two |
| AddressHasher.SubBucketIndex | hash.c:81 | the slot index, from the uid converted to the unsigned 64-bit `size_t`, is below the sub-table capacity |
| AddressHasher.SubBucketIndexIsResidue | hash.c:81 | with 32 slots the unsigned conversion is harmless: the slot is the uid's residue modulo 32, negative uids included |
| ListSpec.FirstMatch | hash.c:153-159 | the index found is the first, in list order, whose key matches (strings or pointers); none is found exactly when no item matches |
| ListSpec.Appended | hash.c:109-124 | the item lands after all old items, which are kept in place; capacity doubles exactly when the list was full and is otherwise unchanged; `count <= capacity` is preserved |
| ListSpec.Removed | hash.c:211-215 | one item fewer; items before `i` stay in place, every later item moves one place left |
| ListSpec.Shrunk | hash.c:226-241 | items are unchanged; capacity changes exactly when the list is under a quarter full and above the minimum, never drops below the minimum and never rises; `count <= capacity` is preserved |
| ListSpec.AfterRemoval | hash.c:211-241 | the list is released exactly when its last item goes; otherwise it holds the shift-deleted items and stays well formed |
| ListSpec.RemoveFromList | hash.c:194-241 | -1, with the slot unchanged, exactly when no item has the key's pointer; otherwise 0 and the first such item is removed |
| ListProperties.AppendAll | hash.c:107-124 | repeated inserts into one list concatenate the items in order and keep `count <= capacity` |
| ListProperties.GrownCapacity | hash.c:109-113 | the capacity reached by doubling from `c` is at least the number of items and at least `c` |
| ListProperties.GrownCapacityStep | hash.c:109-113 | one more item doubles the doubled-from-`c` capacity exactly when it was full |
| ListProperties.AppendAllCapacity | hash.c:109-113 | after any number of inserts, a list's capacity is the least `c * 2^k` that holds its items |
| ListProperties.FortyInsertionsDoubleOnce | hash.c:109-113 | forty inserts into a new list of capacity 32 leave capacity 64 |
| ListProperties.SparseListShrinksToFloor | hash.c:226-241 | removing one of 4 items from a list of capacity 64 shrinks it to the minimum 32 |
| EntryLists.Realloc | hash.c:113 | the new block has the requested size and keeps the old block's items in the common prefix |
| EntryLists.EntryList.constructor | hash.c:89-98 | a new list has no items and `INIT_SUBLIST_SIZE` room |
| EntryLists.EntryList.Append | hash.c:107-124 | the list's new items and capacity are `Appended` of the old ones |
| EntryLists.EntryList.FindByContents | hash.c:151-161 | returns the first index whose key string equals the query's (`FirstMatch` by contents), or none |
| EntryLists.EntryList.FindByIdentity | hash.c:194-207 | on a non-empty list, returns the first index whose key pointer equals the query's (`FirstMatch` by identity), or none |
| EntryLists.EntryList.RemoveAt | hash.c:209-215 | the shift loop leaves exactly `Removed` of the old items, in the same block and with the same capacity |
| EntryLists.EntryList.ShrinkIfSparse | hash.c:224-241 | the list's new items and capacity are `Shrunk` of the old ones |
| SubTables.SubTable.constructor | hash.c:52-70 | a sub-table of the given capacity, with length 0 and no list in any slot |
| SubTables.SubTable.Add | hash.c:81-124 | only slot `uid % capacity` changes: it gets a new list if it had none, and the item is appended |
| SubTables.SubTable.CreateList | hash.c:87-105 | a slot without a list gets an empty one of the minimum capacity; no other slot changes |
| SubTables.SubTable.AppendAt | hash.c:107-124 | only the slot's list changes, to `Appended` of it |
| SubTables.SubTable.Remove | hash.c:180-241 | the code and the slot's new state are those of `RemoveFromList`; no other slot changes, and nothing changes on -1 |
| SubTables.SubTable.DeleteAt | hash.c:209-215 | only the slot's list changes: its items become `Removed` of the old ones, capacity unchanged |
| SubTables.SubTable.Release | hash.c:217-222 | only the slot changes: it no longer holds a list |
| SubTables.SubTable.ShrinkAt | hash.c:224-241 | only the slot's list changes, to `Shrunk` of it |
| TableSpec.CreatedView | hash.c:24-50 | `capacity` buckets; all but the last hold a sub-table of 32 empty slots, the last holds none; no slot holds a list |
| TableSpec.AddView | hash.c:72-125 | the addressed slot's items gain the new item at the end; every other slot of every bucket is unchanged; the table stays well formed |
| TableSpec.GetView | hash.c:127-162 | none exactly when no item of the addressed slot has the query's string; otherwise the first such item, in list order; addressing is always as for a private key |
| TableSpec.RemoveView | hash.c:164-242 | -1, with the table unchanged, exactly when no item has the key's pointer; otherwise 0 and the slot's items are the old ones minus the first such item; every other slot is unchanged; the table stays well formed |
| TableSpec.EnumerateView | hash.c:244-286 | the addressed slot's items in list order, or nothing when the bucket has no sub-table or the slot no list or no items |
| TableProperties.CreatedViewValid | hash.c:24-50 | a table created with BUCKETS_AMNT buckets is well formed |
| TableProperties.SharedBucketHasNoSubtable | hash.c:44-47 | in a well-formed table the bucket of a shared key has no sub-table |
| TableProperties.FirstMatchAppend | hash.c:122-124 | appending an item changes the first match only when there was none and the new item matches |
| TableProperties.FirstMatchUnique | hash.c:153-159 | the first match is the one the scan finds |
| TableProperties.GetAfterAdd | hash.c:72-162 | after a private insert, lookup of the key succeeds, and returns the new item unless an earlier item has the same string |
| TableProperties.GetUnaffectedByAddElsewhere | hash.c:72-162 | an insert never changes a lookup that addresses another slot |
| TableProperties.GetUnaffectedByAddOfOtherString | hash.c:72-162 | an insert never changes a lookup of another string, in the same slot too |
| TableProperties.RemoveAfterAdd | hash.c:72-242 | removing a key just inserted, into a slot where no item had its pointer, returns 0 and restores every slot's items; a list the insert created is released again |
| TableProperties.RemoveAfterAddAtSlot | hash.c:72-242 | the addressed slot's part of the round trip |
| TableProperties.GetAfterRemove | hash.c:127-242 | when exactly one item has the key's pointer or its string, and it has both, removal returns 0 and lookup then misses |
| TableProperties.ContentsMatchIsNotIdentityMatch | hash.c:153-159 | when a stored key has the query's string but another pointer, both pointers hash to the same bucket, and no item of the slot has the query's pointer, lookup finds the stored key, yet removal returns -1 and changes nothing |
| TableProperties.AddToEmptySlot | hash.c:87-124 | an insert into a slot without a list leaves a list of just that item at the minimum capacity |
| Tables.Table.constructor | hash.c:24-50 | the table has the given capacity, length 0, and bucket contents `CreatedView(capacity)`; every bucket but the last holds a sub-table of capacity 32 and length 0 (hash.c:46, 60-61) |
| Tables.Table.InstallSubtable | hash.c:46 | only bucket `i` changes: it gets a sub-table of 32 empty slots |
| Tables.Table.AddEntry | hash.c:72-125 | the table's contents become `AddView` of the old ones and stay well formed |
| Tables.Table.GetEntryItem | hash.c:127-162 | returns `GetView` of the table's contents |
| Tables.Table.RemoveEntry | hash.c:164-242 | the new contents and the code are `RemoveView` of the old contents |
| Tables.Table.EntriesInSubtable | hash.c:244-286 | returns `EnumerateView` of the table's contents |

## Left out

- main.c, the interactive command loop, is not part of this model. It is input and output around single calls of the operations above.
- jhash and jhash.c are not part of this model. The hash primitive is the opaque function `Config.hash32` over the pointer value.
- The `printf` and `perror` diagnostics are left out. `print_entries_in_subtable` is modelled by the items it would print (`EntriesInSubtable`).
- Allocation failures (hash.c:28-30, 36-40, 55-59, 63-68, 90-104, 114-118, 233-238) are left out: every allocation succeeds in the model. Under failure the code is not all-or-nothing: it doubles the capacity before checking `realloc` and can leave a dangling list. The model does not claim otherwise.
- The `free(NULL)` calls in error branches are left out; they do nothing.
- The NULL-sub-table branch of `get_entry_item` (hash.c:133-138) is left out. Lookup always addresses a private bucket, and every private bucket has a sub-table. The same holds for the `subtable->entries == NULL` branch of `print_entries_in_subtable` (hash.c:257-262).
- `ht.length` and `ht_subtable.length` are set to 0 at creation and never updated by the code. The model keeps them as fields. The table's well-formedness invariant holds every sub-table's `length` at 0, and every operation preserves that invariant and the table's own `length`.
- Tables.Table.GetEntryItem: returns a copy of the found item, whereas `get_entry_item` returns a pointer into the list's block (hash.c:157). The model does not capture writes through that pointer. It also does not capture how a later growth, shift-delete, release or shrink of the list invalidates the pointer (hash.c:113, 213, 220, 233).
- The prototype of `ht_add_entry` at hash.h:74 has four parameters; the model follows the five-parameter definition at hash.c:72.
- Stored key strings are compared as values. The model cannot express a caller changing a string after inserting it, or freeing it.
- Concurrency and locking are left out; the code has none.
