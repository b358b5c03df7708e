# FlatHashMap in Dafny

This project models `FlatHashMap<Key, Value, Size, Hash>`, a generic open-addressing hash table. Its state is:

- a power-of-two vector of slots, each holding a key/value pair and a status (FREE, OCCUPIED or DELETED);
- a count of live entries;
- the current capacity;
- a hasher.

A key's home bucket is `hash(k) & (size - 1)`. Probing is linear with wrap-around (`nextCell`).

- `findIndex` stops at a FREE slot and steps over DELETED ones.
- `getNextPosition` returns the slot that already holds the key. Otherwise it returns the first DELETED slot met before the first FREE one, or that FREE slot.
- `rehash` re-inserts only the OCCUPIED slots into a larger array, so it purges tombstones.
- `erase` leaves a tombstone.

The header declares `loadFactor()`, `LOAD_FACTOR = 0.875` and `rehash()` but not when or by how much the table grows, and it does not say how `getNextPosition` chooses among slots, nor what `erase` and `clear` do to a slot. The model fixes these points as listed at the head of "## Left out".

The model is written in the form the source has.

- **`Bitmask`** (bitmask.dfy) covers the `PowerOfTwo` concept on the capacity. It proves that masking with `size - 1` is reduction modulo `size`.
- **`FlatHashMapImpl`** (flathashmap_impl.dfy) covers the nested objects:
  - `Status`, `KeyValue` with its `get<I>` accessors, and `Element`;
  - the forward cursor `IteratorBase`, a class whose `SkipToOccupied` loop is proved against the specification function `NextOccupied`;
  - iteration completeness over the slot array.
- **`HashMap`** (flathashmap.dfy) covers the table.
  - `FlatHashMap` is a class over `array<Element<K, V>>`, with the fields `data`, `count`, `size` and `hasher`. A ghost `contents: map<K, V>` is the dictionary the table stands for.
  - The operations that read or change entries (`insert`, `operator[]`, `at`, `contains`, `erase`, `clear`, `find`) are methods whose contracts are stated on `contents`. `begin` and `end` are stated on slot indices, and `Entries` shows that a walk from `begin` to `end` collects exactly `contents`.
  - The class invariant `Valid()` states that:
    - the capacity is a power of two;
    - `count` is the number of OCCUPIED slots and the size of `contents`;
    - `8 * count <= 7 * size`;
    - keys in OCCUPIED slots are unique;
    - the OCCUPIED slots hold exactly the entries of `contents`;
    - no live key has a FREE slot on its probe path before its own slot.
  - Separate lemmas show that each of the three kinds of slot write (occupy, overwrite, tombstone) keeps this invariant.
- **`Scenarios`** (scenarios.dfy) replays the assertions of the repository's test driver against the contracts:
  - basic operations;
  - edge cases;
  - record keys with a user-supplied hasher (with the template arguments corrected, see "## Left out").

The method bodies live in `flathashmap.tpp`, which is not part of this model. The operations follow their declarations in flathashmap.hpp, the fields, and the behaviour the test driver in main.cpp asserts, together with the assumptions about the bodies listed under "## Left out".

## Model

| member | source | states |
|---|---|---|
| Bitmask.PowerOfTwoIsPow2 | flathashmap.hpp:5-6 | The concept's bit test `size != 0 && size & (size - 1) == 0` holds exactly of 1 and the doubles of powers of two. |
| Bitmask.MaskIsMod | flathashmap.hpp:5-6 | For a capacity satisfying the concept, `h & (size - 1)` equals `h mod size`, and so lies in `[0, size)`. |
| Bitmask.DoublingKeepsPowerOfTwo | flathashmap.hpp:50 | Doubling a capacity that satisfies the concept gives one that still satisfies it, so `rehash` keeps the template's requirement. |
| HashMap.DefaultSizeIsPowerOfTwo | flathashmap.hpp:10-12 | The default `Size` of 1024 satisfies the `PowerOfTwo` concept. |
| HashMap.LoadRatio | flathashmap.hpp:58-61 | A ratio `c / n` of naturals exceeds `LOAD_FACTOR` = 0.875 exactly when `8 * c > 7 * n`. |
| HashMap.NeedsRehash | flathashmap.hpp:58-61 | The integer test `8 * (count + 1) > 7 * size` holds exactly when the load factor with one more entry, taken as a real ratio, exceeds `LOAD_FACTOR` = 0.875. |
| HashMap.Probe | flathashmap.hpp:52 | Attempt `d` from home bucket `home` lands on slot `(home + d) mod n`, which is inside the array. |
| HashMap.Dist | flathashmap.hpp:52 | Every slot `j` is reached from `home` at some attempt `d < n`. |
| HashMap.ProbeDist | flathashmap.hpp:52 | Distinct attempts reach distinct slots: the first `n` probes visit every slot exactly once. |
| HashMap.AbsentWhenFree | flathashmap.hpp:54 | Under the invariant, a probe for `k` that meets a FREE slot without having met `k` proves `k` absent. |
| HashMap.AbsentWhenExhausted | flathashmap.hpp:54 | Under the invariant, a probe for `k` that makes `n` attempts without meeting `k` proves `k` absent. |
| HashMap.PathMeetsVacancy | flathashmap.hpp:58-61 | Under the 0.875 load bound, no probe path consists of OCCUPIED slots only. |
| HashMap.AfterOccupiedRun | flathashmap.hpp:56 | The slot reached after a run of OCCUPIED probes has no FREE slot on its probe path. |
| HashMap.OccupyKeepsInv | flathashmap.hpp:62-64 | Writing an absent key into a non-OCCUPIED slot with no FREE slot on its path keeps the invariant. It adds the entry to the dictionary and grows the OCCUPIED set and the dictionary by one each. |
| HashMap.VacateKeepsInv | flathashmap.hpp:62-64 | Turning an OCCUPIED slot into a tombstone keeps the invariant. It removes exactly that key and shrinks the OCCUPIED set and the dictionary by one each. |
| HashMap.OverwriteKeepsInv | flathashmap.hpp:62-64 | Replacing the value of an OCCUPIED slot keeps the invariant. It updates the dictionary at that key and leaves the count unchanged. |
| HashMap.KeepsReachable | flathashmap.hpp:62 | A write that turns no non-FREE slot FREE and moves no live key keeps every live key reachable from its home bucket. |
| HashMap.RebuildStep | flathashmap.hpp:50 | Re-inserting slot `i` of the old array adds its key (new, since keys are unique) with its old value when the slot is OCCUPIED, and adds nothing otherwise. |
| HashMap.RebuildComplete | flathashmap.hpp:50 | After all old slots are re-inserted, the rebuilt dictionary is the old one. |
| HashMap.RebuiltSkip | flathashmapimpl.hpp:111-115 | Slots that `skipToOccupied` steps over add no key, so a dictionary rebuilt up to slot `i` is also rebuilt up to the next OCCUPIED slot. |
| HashMap.UpsertThenWrite | flathashmap.hpp:26-27 | Upserting `k` and then writing `v` through the reference leaves the same dictionary as binding `k` to `v` directly. |
| HashMap.IterationYieldsContents | flathashmap.hpp:41-45 | Iterating a valid table from `begin` to `end` yields only entries of the dictionary and every key of it, and never the same key twice. |
| HashMap.FlatHashMap.constructor | flathashmap.hpp:21 | A new table has `Size` slots, all FREE, a count of 0 and an empty dictionary, and satisfies the invariant. |
| HashMap.FlatHashMap.Hash | flathashmap.hpp:48 | The home bucket is `hasher(k) mod size`, inside the array. |
| HashMap.FlatHashMap.NextCell | flathashmap.hpp:52 | The slot `shift` steps after `index` is `(index + shift) mod size`, inside the array. |
| HashMap.FlatHashMap.ProbeScan | flathashmap.hpp:54-56 | The shared probe loop stops at the first FREE slot or at the slot holding `k`, or after `size` attempts. None of the slots passed over is FREE or holds `k`, and the first DELETED slot met, if any, is reported. |
| HashMap.FlatHashMap.FindIndex | flathashmap.hpp:54 | Returns `OUT_OF_RANGE` exactly when `k` is absent. Otherwise it returns the in-range OCCUPIED slot holding `k`. |
| HashMap.FlatHashMap.GetNextPosition | flathashmap.hpp:56 | For a present key, returns its slot. For an absent key, returns a non-OCCUPIED slot with only OCCUPIED slots before it on the probe path (the first DELETED or FREE slot), so no FREE slot lies before it. |
| HashMap.FlatHashMap.Occupy | flathashmap.hpp:23-24 | Storing an absent key at such a slot adds exactly that entry, increments `count` and keeps the invariant. No other slot changes. |
| HashMap.FlatHashMap.Rehash | flathashmap.hpp:50 | Moves to a fresh array of twice the capacity and keeps the dictionary unchanged. The new array holds no tombstone. |
| HashMap.FlatHashMap.ReinsertFrom | flathashmap.hpp:50 | Re-inserting every OCCUPIED slot of the old array, in index order, rebuilds exactly the old dictionary, and creates no tombstone in the new array. |
| HashMap.FlatHashMap.Place | flathashmap.hpp:50 | Re-inserting one absent entry adds exactly that entry, increments `count`, and creates no tombstone. |
| HashMap.FlatHashMap.Insert | flathashmap.hpp:23-24 | Returns true exactly when `k` was absent, and then adds `k` with `v`. It never overwrites: a present key keeps its value. |
| HashMap.FlatHashMap.Subscript | flathashmap.hpp:26-27 | Always succeeds and returns the OCCUPIED slot of `k`. An absent key is first added with `Value{}`, and nothing else changes. |
| HashMap.FlatHashMap.WriteValue | flathashmap.hpp:26-27 | An assignment through the reference `operator[]` returned replaces the value of that key only. |
| HashMap.FlatHashMap.Store | flathashmap.hpp:26-27 | `map[k] = v` binds `k` to `v` whether or not `k` was present. |
| HashMap.FlatHashMap.At | flathashmap.hpp:29-30 | Returns the stored value for a present key and `OutOfRange` for an absent one, and changes nothing. |
| HashMap.FlatHashMap.Contains | flathashmap.hpp:32 | True exactly when `k` has an entry. |
| HashMap.FlatHashMap.Erase | flathashmap.hpp:34 | Returns true exactly when `k` was present. `k` is absent afterwards, all other entries are kept, and the capacity and array are unchanged. |
| HashMap.FlatHashMap.Vacate | flathashmap.hpp:34 | The erased slot becomes DELETED with its key reset to `Key{}`, and only its key leaves the dictionary. |
| HashMap.FlatHashMap.Clear | flathashmap.hpp:36 | Every slot is FREE again, the dictionary is empty, and the capacity is unchanged. |
| HashMap.FlatHashMap.Begin | flathashmap.hpp:41-42 | The cursor rests on the first OCCUPIED slot, or at the end when there is none. |
| HashMap.FlatHashMap.End | flathashmap.hpp:44-45 | The cursor is one past the last slot. |
| HashMap.FlatHashMap.Entries | flathashmap.hpp:41-45 | A range-for over the table (`begin`, then `*`, `++` and `!=` against `end`) collects exactly the dictionary: every pair it dereferences is an entry, and every entry is reached. |
| HashMap.FlatHashMap.Find | flathashmap.hpp:38-39 | A present key gives a cursor that dereferences to the key and its value. An absent key gives the end cursor. |
| FlatHashMapImpl.KeyValue.Bind | flathashmapimpl.hpp:21-28 | `get<0>` and `get<1>` of a pair rebuild the pair, giving the key and the value. |
| FlatHashMapImpl.NewElement | flathashmapimpl.hpp:59-69 | An element built from a key and a value holds them and is FREE, not OCCUPIED. |
| FlatHashMapImpl.NextOccupied | flathashmapimpl.hpp:111-115 | The first OCCUPIED index at or after `i`, or the array length when there is none. It never decreases and never passes the end when started inside. |
| FlatHashMapImpl.VisitsExactlyOccupied | flathashmapimpl.hpp:111-115 | Iterating from `i` visits the OCCUPIED slots at or after `i`, and only those, in strictly increasing order. |
| FlatHashMapImpl.VisitsCount | flathashmapimpl.hpp:84-88 | The number of items visited from `i` is the number of OCCUPIED slots at or after `i`. |
| FlatHashMapImpl.IterationCompleteness | flathashmapimpl.hpp:80-88 | From `begin` to `end`, iteration visits each OCCUPIED slot exactly once, in increasing order, and nothing else. |
| FlatHashMapImpl.IteratorBase.constructor | flathashmapimpl.hpp:80-82 | A cursor made at `index` moves to the first OCCUPIED slot at or after it, or to the end. |
| FlatHashMapImpl.IteratorBase.Next | flathashmapimpl.hpp:84-88 | `operator++` moves strictly forward to the next OCCUPIED slot, or to the end. |
| FlatHashMapImpl.IteratorBase.Deref | flathashmapimpl.hpp:90-96 | Dereferencing is allowed on an OCCUPIED slot within the array and yields that slot's pair. |
| FlatHashMapImpl.IteratorBase.NotEndIsDereferenceable | flathashmapimpl.hpp:106-108 | A valid cursor differs from the end cursor exactly when it rests on an OCCUPIED slot, so `it != end()` is the guard that makes `*it` safe. |
| FlatHashMapImpl.IteratorBase.SkipToOccupied | flathashmapimpl.hpp:111-118 | The loop leaves the index at `NextOccupied` of its start and changes no slot. |
| Scenarios.BasicOperations | main.cpp:30-72 | For every string hasher, the basic-operations test holds: upserts read back, an overwrite replaces, `insert` refuses a present key, `contains` and `at` answer right, and erasing a present key, then an absent one, behaves as asserted. |
| Scenarios.EdgeCases | main.cpp:183-211 | For every string hasher, the edge-cases test holds: on an empty table every query says absent, a single key can be erased, and `operator[]` on a new key stores 0. |
| Scenarios.ComplexTypes | main.cpp:213-251 | The upserts, read-backs and erase of the complex-types test hold with record keys, for every hasher given as the table's hasher. |

## Left out

- The method bodies in `flathashmap.tpp` are not part of this model. The operations follow the declarations, the fields and the asserted behaviour of the test driver. Where those leave a choice open, the model assumes the following about the bodies:
  - probing is linear through `nextCell`;
  - `insert` and `operator[]` test the load factor before they look up the key, and call `rehash` when `(count + 1) / size` would exceed `LOAD_FACTOR`. `loadFactor()` takes no argument, so a body testing `count / size >= LOAD_FACTOR` instead is possible. With `Size = 2` that body would accept a second key and leave the table with no vacant slot. The invariant `8 * count <= 7 * size` rests on this assumption;
  - `rehash` grows the capacity by exactly doubling it;
  - `getNextPosition` reuses the first tombstone on the probe path before the first FREE slot;
  - `erase` resets the key to `Key{}` and leaves the value in place;
  - `clear` keeps the current capacity.
- `loadFactor()` returns a `float` ratio. The model decides the same comparison on integers (`NeedsRehash`), so rounding in single-precision division for very large counts is not modelled.
- Concrete hash functions (`std::hash`, the test's `PersonHasher`) call into libraries. The hasher is an arbitrary deterministic function `K -> nat`, given to the constructor.
- `std::size_t` is modelled as an unbounded natural, so overflow of `hash + shift` and of the capacity is not modelled.
- The invariant "at least one FREE slot exists" is not kept, because the source does not keep it. The load factor counts only live entries, so erasing and inserting keys with different home buckets can turn every FREE slot into a tombstone while `count` stays small. For example, with capacity 2 and the identity hasher: insert 0, erase 0, insert 1, erase 1. Probe loops are therefore bounded by the capacity, and the model is correct without that invariant.
- The exception `std::out_of_range` thrown by `at` is modelled as the `OutOfRange` result.
- `at` returns a mutable reference. The model returns the value; writes go through `operator[]` (`Subscript` then `WriteValue`).
- `Key{}` and `Value{}` (value-initialisation) are given to the constructor as `keyInit` and `valueInit`.
- Perfect forwarding and move semantics have no observable behaviour here and are left out. So are the rvalue overloads of `get<I>`, the `std::tuple_size`/`tuple_element` specialisations, the `Proxy`/`operator->` of the iterator, and the const/non-const duplicates of `at`, `find`, `begin` and `end`.
- `FlatHashMapImpl.IteratorBase.NotEqual`: `operator!=` compares indices and has no contract of its own. Its meaning at the end cursor is stated by `NotEndIsDereferenceable`.
- Iterator invalidation is left out. A cursor is valid only while the table's array is unchanged; the model states this as `Valid()` on the cursor and does not track later mutations.
- The rehashing, stress and performance tests of the driver are left out. The first two insert and erase up to 100000 integer keys in loops. The last relies on timing, random strings and other map implementations. Each of their per-key properties follows from the contracts of `Store`, `Erase` and `Contains`.
- Scenarios.ComplexTypes: the complex-types test declares `FlatHashMap<Person, std::string, PersonHasher>` (main.cpp:231), which passes the hasher as the third template argument. That slot is the `std::size_t Size` parameter (flathashmap.hpp:10), and the hasher is the fourth (flathashmap.hpp:11), so the test does not compile as written. The scenario takes the hasher as a parameter and passes it as the table's hasher with the default capacity, which is what the test evidently means. It is not a replay of a test the driver runs as written.
