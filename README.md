# Fine-grained-locking hash table, sequential model

This project models the sequential meaning of a fixed-bucket hash map. The map is made of two C++ class templates:

- `threadsafe_list<T>` is a singly linked list headed by a payload-less sentinel node. It supports `push_front`, `for_each`, `find_first_if`, `update_if` and `remove_if`.
- `threadsafe_lookup_table<Key, Value, Hash>` owns a vector of `bucket_type`s fixed at construction. Each bucket wraps one list of `(key, value)` pairs. A key lives in bucket `hasher(key) % buckets.size()`.

Every operation is one atomic step. The per-node mutexes and the hand-over-hand locking are not modelled.

Files:

- `list_spec.dfy` (module `ListSpec`): value-level meaning of the list traversals.
  - `FirstIndex` and `FirstMatch` give the first element satisfying a predicate.
  - `Without` is the order-keeping filter that `remove_if` leaves.
  - Lemmas cover these functions: no-op on lists with no match, idempotence, and distribution over concatenation.
- `list.dfy` (module `ThreadsafeList`): the nodes and the list as heap objects.
  - Every traversal walks a `current` pointer from the sentinel in a `while` loop, as the C++ code does.
  - The ghost sequence `Nodes` names the chain and `Contents` the payloads. The invariant `Valid()` says the chain from the sentinel is finite and acyclic, ends in null, and carries `Contents`.
  - The search, update and removal methods are proved against the functions of `ListSpec`; `PushFront`, `ForEach` and `Unlink` state their effect on `Contents` directly.
- `bucket_spec.dfy` (module `BucketSpec`): value-level meaning of one bucket.
  - `KeyIs(key)` is the key test `x.first == key` that `find_entry` and `delete_entry` pass to the list.
  - `Lookup` is what `get_value` reads.
  - `Assign` is what `set_entry` leaves: update the first pair with the key in place, or insert a new pair at the front.
  - `Without(KeyIs(key), _)` is what `delete_entry` leaves.
  - `UniqueKeys` says each key occurs at most once. Lemmas give the map laws per bucket and show that uniqueness is kept.
- `lookup_table.dfy` (module `LookupTable`): `bucket_type` as class `Bucket` and the table as class `Table`.
  - The buckets are an `array` filled slot by slot in the constructor's loop.
  - `Table` carries an abstract map `M` and the ghost per-slot pair lists `Slots`. Its invariant says three things: the buckets are valid and share no object; every pair sits in the slot its key hashes to; and looking a key up in its slot yields exactly `M`'s entry.
  - `Example` states the 19-bucket scenario: set "a", set "b", set "a" again, then read back.

The hash function is a constructor parameter of type `K -> nat`. Nothing is assumed about it.

## Model

| member | source | states |
|---|---|---|
| ListSpec.FirstIndex | threadsafe_list.hpp:93-100 | The index of the first element satisfying `p`: absent iff no element does; otherwise it satisfies `p` and every earlier element fails `p`. |
| ListSpec.FirstMatch | threadsafe_list.hpp:75-85 | The first element satisfying `p`: absent iff no element does; otherwise it is an element that satisfies `p` with every earlier element failing `p`. |
| ListSpec.Without | threadsafe_list.hpp:112-126 | What `remove_if` leaves: never longer than the input; no element satisfies `p`; every element comes from the input; every input element failing `p` is kept. |
| ListSpec.WithoutNoMatch | threadsafe_list.hpp:112-126 | Removing from a list with no matching element, the empty list included, changes nothing. |
| ListSpec.WithoutIdempotent | threadsafe_list.hpp:107-127 | A second `remove_if` with the same predicate changes nothing. |
| ListSpec.WithoutAppend | threadsafe_list.hpp:112-126 | Filtering works element by element: filtering a concatenation is the concatenation of the filtered parts, so kept elements stay in relative order. |
| ThreadsafeList.Node.Sentinel | threadsafe_list.hpp:24-26 | The head node carries no payload and no successor. |
| ThreadsafeList.Node.constructor | threadsafe_list.hpp:28-30 | A new node carries its value and no successor. |
| ThreadsafeList.List.constructor | threadsafe_list.hpp:33-37 | A new list is valid and empty. |
| ThreadsafeList.List.PushFront | threadsafe_list.hpp:46-52 | The new value becomes the first element and the old elements follow unchanged and in order. Validity is kept. The footprint becomes the old footprint plus exactly the new node, which is freshly allocated and is the sentinel's successor. |
| ThreadsafeList.List.ForEach | threadsafe_list.hpp:55-68 | `f` is applied exactly once to each element, front to back, and never to the sentinel: result `i` is `f` of element `i`, and there are as many results as elements. The loop ends because the chain is finite. |
| ThreadsafeList.List.FindFirstIf | threadsafe_list.hpp:70-86 | Returns exactly `FirstMatch(p, Contents)`: nothing iff no element satisfies `p`, otherwise the earliest match. |
| ThreadsafeList.List.UpdateIf | threadsafe_list.hpp:88-105 | Returns true iff some element satisfies `p`. In that case only the first match is overwritten with `newData`. Otherwise the contents are exactly as before. The chain and footprint are unchanged. |
| ThreadsafeList.List.Unlink | threadsafe_list.hpp:115-119 | Repointing `current->next` past its successor drops exactly that one element and node and keeps the list valid. |
| ThreadsafeList.List.RemoveIf | threadsafe_list.hpp:107-127 | The contents become exactly `Without(p, old contents)`, even for consecutive matches, because `current` stays put after an unlink. The footprint only shrinks. |
| BucketSpec.Lookup | threadsafe_lookup_table.hpp:40-53 | Absent iff no pair has the key. Otherwise it is the value of a pair with that key that comes before every other pair with that key. |
| BucketSpec.LookupUnique | threadsafe_lookup_table.hpp:48-53 | In a bucket with unique keys, every pair is exactly what `get_value` returns for its key. |
| BucketSpec.AssignLookup | threadsafe_lookup_table.hpp:55-68 | After `set_entry(key, value)` the key reads back `value` (the round trip), and every other key reads back what it did before. |
| BucketSpec.Assign | threadsafe_lookup_table.hpp:55-68 | The pairs `set_entry` leaves: exactly one pair more when the key was absent and the same number when it was present; every pair is either the new pair or was already there. |
| BucketSpec.AssignUnique | threadsafe_lookup_table.hpp:57-61 | `set_entry` keeps each key at most once in its bucket, because it only pushes when the search found nothing. |
| BucketSpec.RemoveLookup | threadsafe_lookup_table.hpp:70-73 | After `delete_entry(key)` the key reads back nothing, and every other key reads back what it did before. |
| BucketSpec.RemoveUnique | threadsafe_lookup_table.hpp:70-73 | `delete_entry` keeps keys unique. |
| BucketSpec.RemoveAbsent | threadsafe_lookup_table.hpp:70-73 | Deleting an absent key changes nothing. |
| BucketSpec.RemoveIdempotent | threadsafe_lookup_table.hpp:70-73 | A second `delete_entry` of the same key changes nothing. |
| LookupTable.Bucket.constructor | threadsafe_lookup_table.hpp:37 | A new bucket is valid and empty. |
| LookupTable.Bucket.FindEntry | threadsafe_lookup_table.hpp:40-43 | Finds a pair iff the key is present. The pair found has the key and the value `Lookup` gives. |
| LookupTable.Bucket.GetValue | threadsafe_lookup_table.hpp:48-53 | Returns the value of the first pair with the key, or the default when there is none. |
| LookupTable.Bucket.SetEntry | threadsafe_lookup_table.hpp:55-68 | Returns true iff the key was absent. The pairs become `Assign(old pairs, key, value)`: an in-place update of the existing pair, or one new pair at the front. Validity and unique keys are kept. |
| LookupTable.Bucket.DeleteEntry | threadsafe_lookup_table.hpp:70-73 | Every pair with the key is removed and all others are kept in order. Validity and unique keys are kept. |
| LookupTable.Table.BucketIndex | threadsafe_lookup_table.hpp:86-90 | `hasher(key) % buckets.size()` is always a valid bucket index when there is at least one bucket. |
| LookupTable.Table.RepresentsAssign | threadsafe_lookup_table.hpp:116-119 | Applying the bucket's `set_entry` in the key's own slot represents the abstract map with the key set. |
| LookupTable.Table.RepresentsRemove | threadsafe_lookup_table.hpp:121-124 | Applying the bucket's `delete_entry` in the key's own slot represents the abstract map without the key. |
| LookupTable.Table.constructor | threadsafe_lookup_table.hpp:97-106 | Creates exactly `numBuckets` valid, separate, empty buckets. `nbuckets` is `numBuckets` and the abstract map is empty, so every lookup on a fresh table yields the default. |
| LookupTable.Table.Fill | threadsafe_lookup_table.hpp:102-105 | One iteration of the constructor's loop: a fresh empty bucket goes into slot `i`, and the slots before it stay valid and separate. |
| LookupTable.Table.FillStep | threadsafe_lookup_table.hpp:102-105 | A fresh valid bucket placed in slot `i`, with nothing else changed, extends the filled prefix by one slot. |
| LookupTable.Table.GetValue | threadsafe_lookup_table.hpp:111-114 | Returns the key's value in the abstract map, or the default when it is absent. |
| LookupTable.Table.SetEntry | threadsafe_lookup_table.hpp:116-119 | Returns true iff the key was absent. The map becomes the old map with the key set. Only the key's own slot changes. The invariant is kept. |
| LookupTable.Table.DeleteEntry | threadsafe_lookup_table.hpp:121-124 | The map becomes the old map without the key. Only the key's own slot changes. The footprint and the invariant are kept. |
| LookupTable.Table.ValidAfterBucketChange | threadsafe_lookup_table.hpp:111-124 | Locality: when only the key's bucket changed, every other bucket is untouched and still valid, and the table invariant holds again. |
| LookupTable.Example | threadsafe_lookup_table.hpp:97-124 | With 19 buckets: setting "a"=1, "b"=2, then "a"=3 reports inserted, inserted, updated; then "a" reads 3, "b" reads 2 and "c" reads the default -1, whatever the hash function. |
| LookupTable.ExampleSets | threadsafe_lookup_table.hpp:97-119 | On a fresh 19-bucket table, setting "a"=1, "b"=2, then "a"=3 reports inserted, inserted, updated and leaves the valid table representing exactly {"a": 3, "b": 2}. |

## Left out

- The mutexes, `unique_lock`/`lock_guard`, the hand-over-hand unlock order, deadlock freedom and thread interleavings are not modelled. Each operation is a single atomic step.
- The find-then-push race in `set_entry`, where two callers both find no entry and both push, is not modelled. It needs concurrent callers; the sequential model proves instead that keys stay unique.
- `shared_ptr` aliasing and lifetime are not modelled. `find_first_if` returns the matched element as a value, not a pointer into the node.
- Bucket `set_entry`'s write through the returned pointer (`entry->second = value`) is modelled as `update_if` on the first pair with the key. Sequentially this is the same pair and the same effect.
- ThreadsafeList.List.ForEach: `f` is a pure function whose results are returned in visiting order. The C++ `f` receives each element by reference and could change it in place; that is not modelled.
- The list destructor is not modelled. It only releases memory.
- `std::hash`, the default `Hash`, is not modelled. The hash function is a parameter of type `K -> nat`, so the `size_t` width of its result is not modelled either.
- LookupTable.Table.constructor: requires at least one bucket. The C++ constructor does not check this; with zero buckets, `get_bucket`'s `%` would divide by zero.
- Keys of reference type are not modelled: `Table` requires its key type to be `!new`, because its invariant quantifies over every key. A C++ `Key` that is a pointer compared by address has no counterpart here.
- The default argument of 19 buckets is not modelled. `Example` passes 19 explicitly.
- The `f_test` function and the `test` members of bucket and table are not modelled. They are debugging hooks; `f_test` takes its pair by value, so it has no effect.
