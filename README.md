# simple-hashtable in Dafny

A model of `simple_hashtable.py`: an open-addressing hash table with integer keys,
linear probing and tombstone deletion, wrapped by the class `SimpleDict`.

- The table is a fixed-length array of buckets. Each bucket has a status, a key and a value.
  The status is Empty (0), Occupied (1) or Deleted (2).
- `_probe(key)` starts at `key % len(table)` and steps one bucket at a time, wrapping around.
  It stops at the first Empty bucket or at the first Occupied bucket holding `key`.
  Deleted buckets and buckets of other keys are skipped. The loop has no bound of its own.
- `_put` overwrites the probed bucket with (Occupied, key, val).
  `_get` and `_has` read it. `_delete` sets its status to Deleted, unconditionally.
- `SimpleDict` holds the table and forwards to these helpers. `__len__` counts the Occupied buckets.

The project has four modules:

- `TableSpec` (`table_spec.dfy`) describes the table as a value, a `seq<Bucket<V>>`. It defines:
  - the probe sequence and the index `_probe` returns (`ProbeIndex`);
  - the tables `_put` and `_delete` leave behind (`AfterPut`, `AfterDelete`);
  - the dictionary a table stands for (`Contents`);
  - the table invariant (`Wellformed`): no key is held by two Occupied buckets, and every
    Occupied bucket lies on its key's probe sequence with no Empty bucket before it.

  The lemmas prove that probing finds exactly the keys of the dictionary. They prove that `_put`
  and `_delete` keep the invariant and act on the dictionary as a store and a removal. They also
  count the Empty buckets each operation uses up.
- `TableOps` (`table_ops.dfy`) holds the module-level helpers as methods on an `array<Bucket<V>>`.
  `Probe` has the source's `while` loop over `p`, `search` and `i`.
- `SimpleHashtable` (`simple_dict.dfy`) holds the class `SimpleDict` with its `table` field.
- `DifferentialTest` (`differential_test.dfy`) is the check that test.py performs. Here it is
  proved for all inputs.

`_probe(key)` terminates exactly when some bucket would stop it: an Empty bucket, or an Occupied
bucket holding `key` (`ProbeStops`, with `ProbeTerminates` proving both directions). Every
operation on a key requires `ProbeStops` for that key, so a full table still serves the keys it
holds. An Empty bucket stops every probe (`EmptyStopsEveryProbe`), and nothing ever turns a bucket
back into Empty. The lemmas say how many Empty buckets each operation consumes:

- one for a put of an absent key;
- one for a delete of an absent key, because the tombstone is written anyway;
- none otherwise.

Python's `%` floors. Dafny's `%` is Euclidean. The two agree for the positive table length,
so negative keys probe from the same home slot as in the source.

`simple_hashtable.py` has no occupancy counters, no rehash or growth, no reuse of tombstones by
`put`, no check that `delete` finds its key, and no error for a full table. The model follows the
code. `PutCorrect` proves that `put` never reuses a Deleted bucket. `DeleteEmptyCount` proves that
deleting an absent key writes a tombstone. `DeleteAbsentSaturates` shows that this can leave a
table on which no probe stops, so the source's probe loop would not terminate for any key.

## Model

| member | source | states |
|---|---|---|
| TableSpec.Slot | simple_hashtable.py:19 | the probe position `(key + p) % len` always lies inside the table |
| TableSpec.Stops | simple_hashtable.py:21-28 | a bucket fails to stop the search exactly when it is Deleted or Occupied by another key |
| TableSpec.FirstStop | simple_hashtable.py:17-31 | the result is the least probe step at or after `p` whose bucket stops the search; every earlier step is skipped; the result is `len` when no step stops |
| TableSpec.OffsetTo | simple_hashtable.py:19 | every slot is reached by some probe step below `len`, so the probe sequence visits the whole table |
| TableSpec.ProbeTerminates | simple_hashtable.py:17-31 | the search stops within `len` steps exactly when some bucket is Empty or Occupied by the key |
| TableSpec.EmptyStopsEveryProbe | simple_hashtable.py:21-22 | a table with an Empty bucket stops the search for every key |
| TableSpec.ProbeOffset | simple_hashtable.py:17-31 | the number of skipped steps is below `len`; the bucket reached is Empty or holds the key; every bucket before it is Deleted or holds another key |
| TableSpec.ProbeIndex | simple_hashtable.py:14-32 | the returned index is inside the table, and its bucket is Empty or Occupied by the key |
| TableSpec.AfterPut | simple_hashtable.py:36-40 | the table after put has the same length, holds (Occupied, key, val) at the probed index and is unchanged everywhere else |
| TableSpec.AfterDelete | simple_hashtable.py:59-61 | the table after delete has the same length; the probed bucket is Deleted with its key and value kept; every other bucket is unchanged |
| TableSpec.CountStatus | simple_hashtable.py:91 | the count of a status is the number of indices whose bucket has that status |
| TableSpec.EmptyWitness | simple_hashtable.py:21-22 | a positive count of Empty buckets yields an Empty bucket for the search to stop at |
| TableSpec.CountUpdate | simple_hashtable.py:90-91 | overwriting one bucket changes a status count only by that bucket's old and new status |
| TableSpec.ContentsKeys | simple_hashtable.py:46-47 | a key is in the dictionary exactly when some Occupied bucket holds it |
| TableSpec.ContentsValue | simple_hashtable.py:46-47 | with unique keys, the dictionary maps each Occupied bucket's key to that bucket's value |
| TableSpec.ContentsSize | simple_hashtable.py:90-91 | with unique keys, the number of Occupied buckets equals the size of the dictionary |
| TableSpec.AllEmpty | simple_hashtable.py:5-10 | an all-Empty table is well formed, stands for the empty dictionary, has no Occupied bucket and has `len` Empty ones |
| TableSpec.ProbeFinds | simple_hashtable.py:44-55 | in a well-formed table the probe stops at an Occupied bucket exactly when the key is in the dictionary, and that bucket holds the key's value |
| TableSpec.PutCorrect | simple_hashtable.py:36-40 | put keeps the invariant and makes the dictionary map the key to the value; the bucket it writes was the key's own bucket when present, and an Empty one (never a tombstone) when absent |
| TableSpec.PutEmptyCount | simple_hashtable.py:36-40 | put of an absent key uses up exactly one Empty bucket; overwriting a present key uses none |
| TableSpec.DeleteCorrect | simple_hashtable.py:58-61 | delete keeps the invariant and removes the key from the dictionary, whether it was present or not |
| TableSpec.DeleteEmptyCount | simple_hashtable.py:58-61 | delete always writes a tombstone over the probed bucket, which is Empty for an absent key. Deleting an absent key uses up one Empty bucket; deleting a present key uses none and lowers the Occupied count by one |
| TableSpec.DeleteAbsentSaturates | simple_hashtable.py:61 | deleting an absent key from a one-bucket empty table leaves no Empty bucket, and the search for every key then runs through the whole table without stopping |
| TableSpec.TableStep | simple_hashtable.py:36-61 | one put or delete keeps the table length and uses up at most one Empty bucket |
| TableSpec.EnoughEmptyRunnable | simple_hashtable.py:36-61 | any sequence of ops on a table with more Empty buckets than ops probes, at every step, a table on which the search stops |
| TableSpec.TableAfter | simple_hashtable.py:36-61 | replaying a sequence of ops whose every probe stops keeps the table length |
| TableSpec.TableRefinesDict | simple_hashtable.py:36-61 | after any sequence of puts and deletes whose every probe stops, the table is still well formed and stands for the dictionary obtained by replaying the same ops on the starting dictionary |
| TableOps.Init | simple_hashtable.py:5-10 | a fresh table of exactly `size` buckets (8 by default), all Empty |
| TableOps.Probe | simple_hashtable.py:13-32 | the loop terminates when some bucket is Empty or holds the key, and returns the first stopping slot of the probe sequence |
| TableOps.Put | simple_hashtable.py:35-40 | the array afterwards is the table put leaves behind |
| TableOps.Get | simple_hashtable.py:43-49 | on a well-formed table, the value the dictionary has for the key, or the default when the key is absent |
| TableOps.Has | simple_hashtable.py:52-55 | on a well-formed table, true exactly when the key is in the dictionary |
| TableOps.Delete | simple_hashtable.py:58-61 | the array afterwards is the table delete leaves behind |
| SimpleHashtable.SimpleDict.constructor | simple_hashtable.py:65-67 | a new dictionary of `size` buckets, valid and empty, with `size` Empty buckets and length 0 |
| SimpleHashtable.SimpleDict.Put | simple_hashtable.py:69-70 | keeps the invariant; afterwards the key maps to the value and every other key keeps its entry; uses up one Empty bucket exactly when the key was absent |
| SimpleHashtable.SimpleDict.Get | simple_hashtable.py:72-73 | the key's value when present, otherwise the default |
| SimpleHashtable.SimpleDict.Has | simple_hashtable.py:75-76 | true exactly when the key is present |
| SimpleHashtable.SimpleDict.Delete | simple_hashtable.py:78-79 | keeps the invariant; removes the key; the length drops by one exactly when the key was present; an absent key still uses up one Empty bucket |
| SimpleHashtable.SimpleDict.SetItem | simple_hashtable.py:84-85 | behaves as Put, leaving the same table |
| SimpleHashtable.SimpleDict.Contains | simple_hashtable.py:87-88 | behaves as Has |
| SimpleHashtable.SimpleDict.Len | simple_hashtable.py:90-91 | for a valid table, the count of Occupied buckets is the number of keys in the dictionary |
| DifferentialTest.ReferenceKeys | test.py:14-18 | the reference dictionary holds exactly the keys that are not multiples of 3, each with the value of its last occurrence |
| DifferentialTest.BuildReference | test.py:14-18 | the loop's map updates build exactly the reference dictionary |
| DifferentialTest.GetAll | test.py:20-23 | for a valid table standing for `d1`, the table's `get` result for each key is `d1`'s value for it, or the default when absent, and both result sequences agree |
| DifferentialTest.Run | test.py:9-23 | with more buckets than pairs, the `get` result from the table for each key is the reference dictionary's value for that key, or the default when absent; both result sequences agree |
## Left out

- The numpy structured dtype, `np.empty` and the numba `@njit` decorations are left out. Buckets are a Dafny datatype in a Dafny array.
- TableOps.Init: the fresh buckets' keys and values are Dafny default values rather than the arbitrary memory `np.empty` leaves. The contract speaks only of their status, which is all the source relies on.
- The `val_dtype` argument and the `_val_dtype` field are left out. The value type is the type parameter `V`.
- Keys are stored as `int32` in the source. Keys here are unbounded integers, so truncation of keys outside the 32-bit range is not modelled.
- `__getitem__` is left out. It returns `get(key)` with the default `None`, which is not a value of `V`. `Get` with an explicit default covers it.
- TableOps.Get: its contract says what the result means only for a well-formed table. For any other table it says nothing.
- TableOps.Has: its contract says what the result means only for a well-formed table. For any other table it says nothing.
- Every operation on a key requires that some bucket is Empty or holds that key. Without one the source's probe loop never ends; with a table of length 0 it raises a division-by-zero error. Neither outcome is modelled.
- TableOps.Init: `size` is a `nat`, so the error `np.empty` raises for a negative size (simple_hashtable.py:8) is not modelled.
- DifferentialTest.Run: compares with a caller-chosen default instead of `None`, and takes the keys and values as parameters instead of drawing them with `np.random`.
- Occupancy counters, the load-factor check, rehashing, tombstone reuse and a `TableFull` error are not in `simple_hashtable.py`, so they are not modelled.
