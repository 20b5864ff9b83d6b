# HashTable<T> — a verified Dafny model

This project models `HashTable<T>` from `HashTable.cpp`. It is a string-keyed hash table with
these parts:

- **Storage.** Open addressing over a fixed array of `Entry` slots.
- **Probing.** Each probe starts from a djb2 string hash and advances quadratically, to
  `(hash % capacity + i*i) % capacity`.
- **Deletion.** Removal is lazy: a removed slot becomes a tombstone.

A slot is EMPTY, OCCUPIED or a TOMBSTONE. The probe has two modes:

- **Insert mode** stops at the first slot that is not occupied, so it reuses tombstones.
- **Lookup mode** stops at the slot holding the key or at an EMPTY slot, and passes over tombstones.

The model has five modules:

- `Hashing`: the 64-bit djb2 hash as a function, with a left-fold reference definition.
- `Probing`: the `Entry` datatype, the bounded probe as a function, and the lemmas that characterise
  where a probe ends.
- `TableOps`: what `insert`, `remove` and `get` do to the sequence of slots, and the table
  invariant. The invariant has two parts: no slot is both occupied and deleted, and every live
  slot is reachable along its key's probe chain without crossing an EMPTY slot. This module also
  holds the lemmas about lookups, insertion and removal.
- `HashTables`: the class `HashTable<T>`. It has the fields `table: array<Entry<T>>`, `capacity`
  and `size`. `CustomHash`, `Probe` and `Dump` are methods with loops, proved against the
  functions above. `Insert` and `Remove` update the array in place, field by field, and their
  postconditions give the new contents in terms of the old ones.
- `Scenarios`: concrete runs, on five slots except for a one-slot table, including the duplicate-key run of the source's `main`.

`size_t` is 64 bits wide. Every sum and product that the source computes in `size_t` is reduced
modulo 2^64 explicitly.

Where the code and the intended design of a counted, growing table differ, the model follows the
code:

- `size` is set to 0 by the constructor and never changed. `getSize` therefore always answers 0,
  and the load-factor test in `insert` can never fire. The model keeps `size == 0` in the object
  invariant and proves the growth branch dead.
- `insert` never looks for the key first. Re-inserting a key writes a second live copy in the
  first slot of its probe chain that is not occupied. That slot comes after the existing copy,
  unless a tombstone comes earlier on the chain. `get` answers with whichever copy comes first on
  the chain: the old value in `Scenarios.DuplicateRun`, the new one in `Scenarios.CollisionScenario`,
  where the new copy fills a tombstone. So "get returns the last value inserted" holds only for keys
  that were absent (`TableOps.InsertNewThenGet`).
- `remove` is idempotent only while the key has at most one live copy. With two copies, the second
  `remove` tombstones the second copy.

## Model

| member | source | states |
|---|---|---|
| `Hashing.CharCode` | HashTable.cpp:30-31 | a key character adds a signed `char` value in [-128, 128), equal to the character itself for ASCII |
| `Hashing.HashStep` | HashTable.cpp:31 | one loop step `(hash << 5) + hash + c` stays a 64-bit value |
| `Hashing.Djb2` | HashTable.cpp:28-34 | the hash of any key, including the empty key, is a 64-bit value |
| `Hashing.FoldFromAppend` | HashTable.cpp:30-32 | folding the hash loop over `a + b` continues from where folding over `a` stopped |
| `Hashing.Djb2IsLeftFold` | HashTable.cpp:28-34 | `customHash(key)` is 5381 with `hash*33 + c` (mod 2^64) applied to every character of `key` in order |
| `Hashing.Djb2Extend` | HashTable.cpp:30-32 | one more character costs exactly one more step of the loop |
| `Hashing.Djb2OfEmpty` | HashTable.cpp:29 | the empty key hashes to 5381 |
| `Hashing.Djb2Examples` | HashTable.cpp:28-34 | concrete hashes: "a" is 177670, "e" is 177674, "ab" is 5863208 |
| `Probing.EmptyTable` | HashTable.cpp:19 | a freshly allocated array has `n` slots, all EMPTY (`Entry()`) |
| `Probing.Slot` | HashTable.cpp:37-41 | the `i`-th attempt visits `((hash % capacity + i*i) mod 2^64) % capacity`, an index below `capacity` |
| `Probing.Stops` | HashTable.cpp:42-52 | insert mode stops at any slot that is not occupied; lookup mode stops at a slot that is occupied with the key or that is neither occupied nor deleted, so a tombstone never stops it |
| `Probing.ProbeFrom` | HashTable.cpp:36-58 | a returned index is in range; in insert mode its slot is not occupied; in lookup mode its slot is occupied and holds the key |
| `Probing.Probe` | HashTable.cpp:36-41 | the probe seeded with `customHash(key)`: a returned index is in range, not occupied in insert mode, occupied with the key in lookup mode |
| `Probing.ProbeEndsAtFirstStop` | HashTable.cpp:40-55 | the probe answers at the first attempt whose slot stops it: that slot in insert mode or when it holds the key, "not found" (-1) when it is EMPTY; tombstones never stop a lookup |
| `Probing.ProbeExhausted` | HashTable.cpp:40-57 | when no attempt stops it, the bounded probe answers "not found" |
| `Probing.ProbeFoundAt` | HashTable.cpp:40-55 | a returned index is the slot of some attempt, every earlier attempt passed over its slot, and the returned slot stops the probe |
| `Probing.LookupIgnoresPassedSlot` | HashTable.cpp:47-52 | a lookup's answer does not change when a slot it passes over (a tombstone or another key) becomes another such slot |
| `TableOps.Inserted` | HashTable.cpp:132-137 | `insert` keeps the length and changes at most one slot, a slot that was not occupied, which then holds the key and value, occupied and not deleted; afterwards the key is present unless nothing was written |
| `TableOps.Removed` | HashTable.cpp:149-157 | `remove` keeps the length and changes at most one slot, one holding the key live, which becomes a tombstone with key "" and its old value |
| `TableOps.Lookup` | HashTable.cpp:140-146 | a value `get` returns is the value of a slot holding the key live |
| `TableOps.Valid` | HashTable.cpp:13-21 | the invariant the table keeps: no slot is both occupied and deleted, and every live slot is reachable along its key's probe chain without crossing an EMPTY slot |
| `TableOps.EmptyTableValid` | HashTable.cpp:72-77 | a new table satisfies the invariant and every lookup in it answers "not found" |
| `TableOps.LookupSound` | HashTable.cpp:158-166 | when `contains` is true, some slot holds the key live |
| `TableOps.LookupReaches` | HashTable.cpp:47-52 | a lookup reaches a slot holding the key when no EMPTY slot lies before it on the chain |
| `TableOps.LookupComplete` | HashTable.cpp:158-166 | under the invariant, `contains(key)` is true exactly when some slot holds `key` live |
| `TableOps.LookupFailsIffAbsent` | HashTable.cpp:140-146 | under the invariant, `get` fails exactly when no slot holds the key; otherwise it returns the value of a slot that holds it |
| `TableOps.LookupUnique` | HashTable.cpp:140-146 | when one slot holds the key, `get` returns that slot's value |
| `TableOps.InsertKeepsValid` | HashTable.cpp:132-137 | `insert` keeps the invariant: the slot it fills is reached through occupied slots only |
| `TableOps.RemoveKeepsValid` | HashTable.cpp:149-157 | `remove` keeps the invariant: a tombstone is never EMPTY, so chains stay unbroken |
| `TableOps.InsertThenContains` | HashTable.cpp:132-137 | after an `insert` that found a slot, `contains` of that key is true, with or without an earlier copy |
| `TableOps.InsertNewThenGet` | HashTable.cpp:132-146 | inserting an absent key: the lookup finds exactly the written slot and `get` returns the inserted value |
| `TableOps.InsertKeepsOthers` | HashTable.cpp:132-137 | `insert(k, v)` does not change what a lookup of any other key finds, in every table that keeps the invariant (and for found keys in any table) |
| `TableOps.RemoveKeepsOthers` | HashTable.cpp:149-157 | `remove(k)` does not change what a lookup of any other key finds |
| `TableOps.RemoveAbsentIsNoop` | HashTable.cpp:149-157 | removing a key that no slot holds changes nothing, in any table |
| `TableOps.RemoveThenAbsent` | HashTable.cpp:149-166 | when the key has at most one live copy, `contains` is false after `remove` |
| `TableOps.RemoveTwice` | HashTable.cpp:149-157 | when the key has at most one live copy, removing it twice equals removing it once |
| `TableOps.ReinsertAfterRemove` | HashTable.cpp:127-157 | remove a key held by one slot, insert it with a new value: `get` returns the new value |
| `HashTables.TagOf` | HashTable.cpp:185-191 | a slot prints `Key: k, Value: v` exactly when occupied and not deleted, `[deleted]` exactly when deleted, `[empty]` exactly when EMPTY |
| `HashTables.HashTable.constructor` | HashTable.cpp:72-77 | `initialCapacity` (default 101) EMPTY slots, `size` 0, invariant established |
| `HashTables.HashTable.CustomHash` | HashTable.cpp:28-34 | the hash loop computes `Djb2(key)`, a 64-bit value |
| `HashTables.HashTable.Probe` | HashTable.cpp:36-58 | the probe loop computes the bounded probe: an in-range index whose slot is free (insert mode) or holds the key (lookup mode), or "not found" |
| `HashTables.HashTable.Insert` | HashTable.cpp:127-139 | the growth branch is never taken, and only the slot the insert-mode probe picks changes: it holds the key and value, occupied and not deleted; the invariant is kept |
| `HashTables.HashTable.Get` | HashTable.cpp:140-146 | fails with `KeyNotFound` exactly when no slot holds the key; otherwise returns the value of the slot the lookup finds |
| `HashTables.HashTable.Remove` | HashTable.cpp:149-157 | only the slot the lookup finds changes: key "", deleted, not occupied; an absent key changes nothing; the invariant is kept |
| `HashTables.HashTable.Contains` | HashTable.cpp:158-166 | true exactly when the lookup probe succeeds, which is exactly when some slot holds the key |
| `HashTables.HashTable.GetSize` | HashTable.cpp:168-170 | always 0, since no operation updates `size` |
| `HashTables.HashTable.GetCapacity` | HashTable.cpp:171-173 | the positive number of slots in the array |
| `HashTables.HashTable.Dump` | HashTable.cpp:181-195 | one line per slot index `0..capacity-1` in order, tagged live with its key and value, deleted, or empty by the slot's state |
| `Scenarios.BasicRun` | HashTable.cpp:127-166 | on five slots: insert a, b, c; `get("b")` is 2; after `remove("b")` "b" is not found; insert d; a, c, d keep their values |
| `Scenarios.DuplicateRun` | HashTable.cpp:204-214 | inserting "e" twice stores two copies; `get` returns the first value; one `remove` leaves "e" present; two removes differ from one |
| `Scenarios.CollisionScenario` | HashTable.cpp:42-52 | the colliding keys "a" and "f" both stay retrievable; "f" survives the removal of "a"; re-inserting "f" reuses the tombstone |
| `Scenarios.TombstoneKeepsCollidingKey` | HashTable.cpp:152-155 | with a tombstone the lookup of a colliding key still succeeds; clearing the slot to EMPTY would lose that key |
| `Scenarios.FullTableProbeNeverStops` | HashTable.cpp:40-55 | as written, `insert("a", 1)` on a new one-slot table gives the single slot holding "a"; on it every attempt of a lookup or insert of "b" visits slot 0 and none ends the probe, so the loop never returns |
| `Scenarios.RemovedKeyLookupCycles` | HashTable.cpp:40-55 | as written, after removing "b" from five slots the first 2^32 attempts of its lookup visit only slots 0, 1 and 2 and none ends it; attempt 2^32+1, after `i*i` wraps, reaches EMPTY slot 4 |

## Left out

- `resize` (HashTable.cpp:60-68) is not modelled. The load-factor test that calls it can never fire, because `size` stays 0. As written, it also leaves the array shorter than `capacity`.
- The "Big Five" (HashTable.cpp:80-125) are not modelled: destructor, copy and move construction and assignment. They are memory ownership with no behaviour beyond a deep copy.
- The `double` field `loadFactorThreshold` is not modelled. The test `(double)size/capacity >= 0.7` becomes the integer test `10*size >= 7*capacity`, which is dead code.
- Stream formatting in `operator<<` (`std::setw(3)`, `std::left`, `ostream`) is not modelled. `Dump` returns one tagged line per slot instead of text.
- `main` (HashTable.cpp:197-217) is console I/O. Its repeated insert of "e" appears as `Scenarios.DuplicateRun`, on five slots.
- HashTables.HashTable.Get returns the value, not a mutable `T&` into the array. Updating a value through that reference is not modelled.
- HashTables.HashTable.Probe and Probing.ProbeFrom stop after `capacity` attempts and then answer "not found". The source has no bound and keeps probing. On a table with no stopping slot it never returns (see Findings). Otherwise, once `i*i` wraps around 2^64 after 2^32 attempts, it may reach a slot the bounded probe never visits and then answer from there (`Scenarios.RemovedKeyLookupCycles`). In those states the model's "not found" differs from the source's eventual answer.
- HashTables.HashTable.Insert and TableOps.Inserted write nothing when every bounded attempt meets an occupied slot. The source keeps probing there: it never returns on a full chain, and after 2^32 attempts it may reach a free slot the bounded probe never visits and store the key there. The model drops such a key.
- HashTables.HashTable.constructor requires `0 < initialCapacity < 2^64`. With capacity 0, the source's probe divides by zero.
- The value `T()` that `Entry()` default-constructs is passed to the constructor as `blank`.
- Hashing.CharCode reads each Dafny `char` of a key as one byte of the `std::string`: it keeps the low 8 bits and treats `char` as signed. On targets where `char` is unsigned, bytes 128-255 hash differently.
- TableOps.RemoveTwice requires the key to have at most one live copy. With duplicates, removal is not idempotent (`Scenarios.DuplicateRun`).
- TableOps.RemoveThenAbsent requires the key to have at most one live copy. With duplicates, the next copy answers.
- TableOps.InsertNewThenGet requires the key to be absent. For a key already present, `get` answers with whichever copy comes first on the chain: the old one, or the new one when it filled a tombstone before the old copy.

## Findings

| source | as written | input that shows it | evidently intended | confidence | as-written member | corrected member |
|---|---|---|---|---|---|---|
| HashTable.cpp:40-55 | `probe` loops `while(true)` with no bound. A probe whose chain meets no stopping slot never returns. | `HashTable<int>(1)`, then `insert("a", 1)`, then `contains("b")` (or `insert("b", 2)`). Every attempt `i` visits slot `(h % 1 + i*i) % 1 = 0`, which holds "a" and stops neither a lookup for "b" nor an insert. | Stop after `capacity` attempts and report the exhaustion as an internal error, distinct from "not found". The corrected model merges the two: an exhausted lookup answers "not found" and an exhausted insert writes nothing. | not executed | `Scenarios.FullTableProbeNeverStops` | `Probing.ProbeExhausted` |
