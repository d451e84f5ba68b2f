# LazyHashMap in Dafny

A model of `LazyHashMap<K, V>`, a key/value map that creates its hash table only on
the first insertion, and of its cursor `Iter`. The map's state is either "no table"
or "a table". Reads (`contains_key`, `get`, `iter`) treat "no table" as the empty map
and never create one. `insert` is the only operation that creates the table, and once
created the table stays.

Files:

- `wrappers.dfy`: module `Wrappers`, the `Option` datatype.
- `lazy_hash_map.dfy`: module `LazyHashMaps`.
  - Class `LazyHashMap` holds `table: Option<map<K, V>>`. Its logical contents are
    `Contents()`: `map[]` without a table, the table otherwise.
  - Class `Iter` holds `cursor: Option<seq<(K, V)>>`, the entries still to come or
    `None` when the map had no table. The ghost fields `source` and `yielded` are the
    entries it started from and those already produced. `Valid()` states that
    `yielded + rest` lists every entry of `source` exactly once.
  - Lemmas about enumerations of a map (`EnumerationOf`), and `Drain`, which runs a
    cursor to the end the way a `for` loop over the map does.
  - Three client methods exercise the contracts on concrete maps. In
    `ScenarioReadsOnly`, a map that is only read stays tableless and reads as empty
    every time. In `ScenarioOverwrite`, overwriting a key returns the earlier value.
    In `ScenarioIterate`, two inserted keys are each produced once, then `None`.

The hash table is a Dafny `map<K, V>`: keys are compared by equality only. The order
in which the table's iterator visits entries is left open. `Entries` picks keys with
`:|`, so any order satisfies the model.

## Model

| member | source | states |
|---|---|---|
| `LazyHashMaps.LazyHashMap.constructor` | src/lazy_hash_map.rs:16-18 | A new map has no table and its logical contents are empty. |
| `LazyHashMaps.LazyHashMap.ContainsKey` | src/lazy_hash_map.rs:20-26 | True exactly when the key is in the logical contents; always false when there is no table. As a function it cannot change the state, so reads never create a table. |
| `LazyHashMaps.LazyHashMap.Get` | src/lazy_hash_map.rs:28-34 | `Some(v)` exactly when the key is present, with `v` its stored value; `None` whenever there is no table. Agrees with `ContainsKey`: `Get(k).Some?` iff `ContainsKey(k)`. |
| `LazyHashMaps.LazyHashMap.Insert` | src/lazy_hash_map.rs:36-43 | Afterwards the table is present. An existing table is kept and updated, not replaced. Contents become `old(Contents())[key := val]`, so `Get(key) == Some(val)` and other keys keep their mappings. Returns the previous value for the key, and `None` on the first insertion. |
| `LazyHashMaps.LazyHashMap.Iter` | src/lazy_hash_map.rs:45-47 | Returns a fresh, valid cursor whose remaining entries are exactly the map's contents. Without a table, the cursor is `None` and its size hint is `(0, Some(0))`. |
| `LazyHashMaps.Iter.constructor` | src/lazy_hash_map.rs:50 | A cursor built from "no table" (with nothing to enumerate) or from an enumeration of the table. It has produced nothing yet, so everything remains. |
| `LazyHashMaps.Iter.Next` | src/lazy_hash_map.rs:55-57 | Returns `None` iff no entry remains; this includes the no-table case. Otherwise it returns a remaining entry with its stored value and removes that key from the remaining entries. `Drain` draws the consequence that each entry is produced exactly once. |
| `LazyHashMaps.Iter.SizeHint` | src/lazy_hash_map.rs:59-61 | `(0, Some(0))` when there is no table. Otherwise the lower bound equals the number of entries still to come, and the upper bound is `Some` of the same number. |
| `LazyHashMaps.Drain` | src/lazy_hash_map.rs:52-57 | Calling `next` until it returns `None` collects every entry that remained, each exactly once with its stored value, so the count equals the map's size for every map. Afterwards nothing remains. |
| `LazyHashMaps.CollectedAll` | src/lazy_hash_map.rs:56 | Entries produced without a repeated key, once none of the map remains, list the whole map and are exactly as many as its entries. |
| `LazyHashMaps.Entries` | src/lazy_hash_map.rs:46 | The entry sequence a table's iterator walks: every entry of the map exactly once, in an unspecified order. |
| `LazyHashMaps.EnumerationLength` | src/lazy_hash_map.rs:60 | A sequence listing each entry of a map once is exactly as long as the map. The size hint uses this to count the remaining entries. |
| `LazyHashMaps.DistinctKeysCount` | src/lazy_hash_map.rs:60 | A sequence of entries with no repeated key has as many keys as elements. |
| `LazyHashMaps.SuffixEnumerates` | src/lazy_hash_map.rs:56 | If `produced + rest` enumerates the table, then `rest` enumerates the entries whose keys have not been produced. |
| `LazyHashMaps.CursorStep` | src/lazy_hash_map.rs:56 | Advancing the cursor by one entry keeps the enumeration. The entry taken is one of the remaining entries, with its stored value, and its key leaves the remaining set. |

## Left out

- SeaHash and `BuildHasherDefault`. The hash function is a foreign dependency, and keys are modelled through equality alone.
- The internals of `std::collections::HashMap`: buckets, resizing and rehashing. Only its map behaviour is modelled, as a Dafny `map`.
- Lookup through `Borrow<Q>`. `ContainsKey` and `Get` take a `K` directly. Lifetimes and the borrowed `(&K, &V)` items are also left out; `Next` returns the values.
- The iteration order of the underlying table is not fixed by the model.
- `LazyHashMaps.Iter.SizeHint`: with a table, the hint is modelled as exact: `(n, Some(n))` for the `n` entries still to come. This is what the standard library's map iterator reports. Nothing beyond that is taken from the library.
- The "no insertion while a cursor is alive" rule is left out. Rust's borrow checker enforces it. In the model, a cursor holds its own copy of the entry sequence and does not observe later inserts.
