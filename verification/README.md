# Open-addressing string set and map of c-utils, in Dafny

This project models the two hash tables of c-utils: the string set of `lib/set.c`
and the string-to-pointer map of `lib/map.c`. Both tables are fixed-size arrays of
key slots. A key is hashed with 64-bit FNV-1a, reduced modulo the size, and
collisions are resolved by linear probing. Deleting a key leaves a tombstone, so
that probe chains running through the slot stay intact. The set owns copies of
its keys. The map also owns its keys, but its values are caller-owned pointers.

Modules:

- `Wrappers`: the `Option` type. `None` stands for a null pointer or "not found".
- `Fnv`: the hash.
  - `Fnv1a` is FNV-1a over the bytes of a key, with 64-bit wrap-around (`bv64`).
  - `Home` is the home slot, `hash % size`.
  - `MakeKey` is the byte loop of `setMakeKey` / `mapMakeKey`.
  - A key is a byte sequence without a NUL byte, so `strcmp(a, b) == 0` is
    sequence equality.
- `Probing`: the slot array as a sequence of `Slot` values.
  - A slot is `Empty` (null), `Tombstone` (the shared tombstone string) or
    `Occupied(key)`.
  - `Lookup` is the walk of `setGetIndex` / `mapGetIndex`, and `GetIndex` is its
    loop.
  - `InsertTarget` is the slot `setAdd` / `mapSet` stop at: the home slot unless
    it holds another key, otherwise the first later probe that is empty, a
    tombstone or the key itself. `ProbeAfterHome` is that probe loop. When the
    probe stops at a slot that already holds the key, `setAdd` returns without
    writing, which leaves the table as writing the key would; `mapSet`
    overwrites the value there.
  - The invariant `ChainsIntact` says every stored key is reachable from its home
    slot without crossing an empty slot. Every operation keeps it. From it
    follows that `Lookup` finds a key exactly when some slot holds it.
- `StrSet`: class `HashSet` with its `keys` array. Its methods are `setCreate`,
  `setAdd`, `setHas`, `setDelete`, `setUsed` and the slot bookkeeping of
  `setDestroy`.
- `StrMap`: class `HashMap` with its parallel `keys` and `values` arrays. Its
  methods are `mapCreate`, `mapSet`, `mapGet`, `mapDelete` and the slot
  bookkeeping of `mapDestroy`. A value is an `Option<V>`, so storing a null
  pointer is modelled.
- `AsWritten`: two behaviours of the code as written that differ from what the
  code evidently intends (see "## Findings").

Uniqueness of stored keys is guaranteed only while no tombstone exists. The
code can store a key twice, because it writes on a tombstone without checking
whether the key is already stored further down the chain. This happens on two
paths:

- a tombstone in the home slot (lib/set.c:85-86, lib/map.c:76-77), stated by
  `Probing.TombstoneAtHomeDuplicates`;
- a tombstone at a later probe that comes before the stored copy
  (lib/set.c:99-104, lib/map.c:91-97), stated by `Probing.TombstoneOnProbeDuplicates`.

Adding a key twice in a row is always a no-op, whatever tombstones the table
has (`Probing.AddTwiceIsNoOp`, lib/set.c:184-187). The duplicate arises only
when a tombstone lies before a copy stored earlier, for instance after a
colliding key that was added before it is deleted. A user sees two effects.
After such a re-add, `setUsed` counts the key twice. A later `setDelete` then
leaves the other copy findable:
`Probing.DeleteHidesIffOnlyCopy` proves that a delete hides a key exactly when
the deleted slot held its only copy. Every uniqueness property is therefore
conditioned on `NoTombstones`.
Where the documentation of `mapSet` (the key is copied and owned by the map) and
its code disagree, the model follows the documentation in `StrMap` and records
the code in `AsWritten`.

## Model

| member | source | states |
|---|---|---|
| Fnv.Step | lib/set.c:30-31 | one round, xor in the byte and then multiply by the prime modulo 2^64; a definition, which `Fnv1aSnoc` and `FoldSnoc` state as one loop iteration |
| Fnv.Fnv1a | lib/set.c:26-32 | the hash of a key; a definition, checked against the published values by `Fnv1aVectorA`, `Fnv1aVectorFoo` and `Fnv1aVectorFoobar` and against the loop by `Fnv1aIsFold` (`mapMakeKey` at lib/map.c:9-15 is the same) |
| Fnv.Fnv1aIsFold | lib/set.c:25-32 | the hash, defined recursively on the last byte, equals the front-to-back loop that starts at the offset basis and applies xor-then-multiply per byte |
| Fnv.FoldSnoc | lib/set.c:29-32 | one more loop iteration applies one xor-then-multiply step to the hash so far |
| Fnv.Fnv1aAppend | lib/set.c:29-32 | hashing a concatenation continues the loop from the hash of the prefix |
| Fnv.Fnv1aSnoc | lib/set.c:29-32 | appending a byte applies one step to the hash of the prefix |
| Fnv.Fnv1aVectorA | lib/set.c:26-32 | the published FNV-1a 64 values of "" and "a" |
| Fnv.Fnv1aVectorFoo | lib/set.c:26-32 | the published FNV-1a 64 value of "foo" |
| Fnv.Fnv1aVectorFoobar | lib/set.c:26-32 | the published FNV-1a 64 value of "foobar" |
| Fnv.Home | lib/set.c:34 | the home slot is an index of the table |
| Fnv.MakeKey | lib/set.c:25-35 | the byte loop, with 64-bit wrap-around, returns the FNV-1a hash of the key modulo the size (`mapMakeKey` of lib/map.c:8-18 is the same loop) |
| Probing.Probe | lib/set.c:43 | the probed index `(index + i) % size` is an index of the table |
| Probing.ProbeNoWrap | lib/set.c:43 | before the end of the array the probe is `index + i` |
| Probing.ProbeWrap | lib/set.c:43 | past the end the probe wraps to `index + i - size` |
| Probing.OffsetOf | lib/set.c:42-43 | every slot is the probe of some offset below the size, so one cycle visits every slot |
| Probing.ProbeOffsetUnique | lib/set.c:42-43 | distinct offsets in one cycle probe distinct slots |
| Probing.Accepts | lib/set.c:99-107 | the insert probe stops exactly where the lookup walk would stop (an empty slot or the key) and also at tombstones; used by `FirstAccepting` and `InsertTarget` (`mapSet` at lib/map.c:91-93) |
| Probing.PassesOver | lib/set.c:46-55 | the lookup walk steps over a slot exactly when it is neither empty nor the key; used by `LookupFromSkips` |
| Probing.LookupFrom | lib/set.c:42-59 | a found index holds the key |
| Probing.Lookup | lib/set.c:37-62 | a found index holds the key |
| Probing.LookupFromSkips | lib/set.c:50-53 | slots that are tombstones or hold other keys do not change where the walk ends |
| Probing.LookupFromFound | lib/set.c:42-59 | a found index is the probe of an offset inside the cycle |
| Probing.LookupFromReaches | lib/set.c:42-59 | a key whose slot is reached without crossing an empty slot is found |
| Probing.LookupIff | lib/set.c:37-62 | the walk finds the key iff some probe offset within one cycle holds it and no earlier offset probes an empty slot |
| Probing.LookupFromTransparent | lib/set.c:50-53 | replacing a slot the walk passes over by another such slot does not change the result |
| Probing.GetIndex | lib/set.c:37-62 | the loop returns exactly the walk's result: found index or NOT_FOUND |
| Probing.FirstAccepting | lib/set.c:92-110 | a returned slot is empty, a tombstone or the key |
| Probing.InsertTarget | lib/set.c:83-115 | the slot written is empty, a tombstone or the key |
| Probing.ProbeAfterHome | lib/set.c:89-115 | the probe loop over offsets 1 to size-1 returns exactly the first slot that is empty, a tombstone or the key, or FULL when there is none |
| Probing.FirstAcceptingFound | lib/set.c:92-104 | the slot found is the probe of an offset inside the cycle |
| Probing.FirstAcceptingNone | lib/set.c:112-114 | the loop reports FULL iff no remaining offset probes an acceptable slot |
| Probing.FirstAcceptingSkips | lib/set.c:92-104 | the loop stops at the first acceptable offset |
| Probing.InsertTargetFound | lib/set.c:83-104 | the target is the first acceptable offset counted from the home slot |
| Probing.InsertTargetNoneIff | lib/set.c:112-114 | add reports FULL iff every slot holds a key other than the one being added |
| Probing.InsertThenLookup | lib/set.c:117-122 | after writing the key at its target, the lookup walk finds it at that slot |
| Probing.CountOccupied | lib/set.c:142-151 | the number of occupied slots is at most the size |
| Probing.CountOccupiedUpdate | lib/set.c:142-151 | writing one slot changes the count by that slot's occupancy before and after |
| Probing.CountOccupiedFull | lib/set.c:142-151 | the count equals the size iff every slot is occupied |
| Probing.NoneOccupied | lib/set.c:153-165 | a table without occupied slots counts zero |
| Probing.EmptyChainsIntact | lib/set.c:64-79 | an all-empty table satisfies the reachability invariant |
| Probing.StoredIsFound | lib/set.c:125-129 | under the invariant, every stored key is found |
| Probing.MissedIsAbsent | lib/set.c:125-129 | under the invariant, a key the walk misses is in no slot |
| Probing.ReachableKept | lib/set.c:117-137 | writing a slot that is not empty keeps every other reachable key reachable; used by `InsertKeepsChains` and `TombstoneKeepsChains` |
| Probing.InsertKeepsChains | lib/set.c:117-122 | writing a key at its insert target keeps the invariant |
| Probing.TombstoneKeepsChains | lib/set.c:131-140 | replacing an occupied slot by a tombstone keeps the invariant |
| Probing.DeleteKeepsOthers | lib/set.c:131-140 | deleting one key does not change the lookup of any other key (the tail of a chain stays reachable after its head is deleted) |
| Probing.DeleteHidesOnlyCopy | lib/set.c:131-140 | deleting the only copy of a key makes it not found |
| Probing.DeleteHidesIffOnlyCopy | lib/set.c:131-140 | under the invariant, deleting the copy the lookup found makes the key not found iff that was its only copy; a second copy stays found |
| Probing.InsertKeepsOthers | lib/set.c:117-122 | inserting a key does not change the lookup of any other key |
| Probing.FillingEmptyKeepsFound | lib/set.c:117-122 | filling an empty slot does not change where a found key is found |
| Probing.InsertKeepsUnique | lib/set.c:81-123 | without tombstones, adding keeps every key stored at most once |
| Probing.TombstoneAtHomeDuplicates | lib/set.c:83-86 | with a tombstone in the home slot and the key stored elsewhere, add writes a second copy and the used count rises by one |
| Probing.TombstoneOnProbeDuplicates | lib/set.c:92-104 | when the home slot holds another key and the first acceptable probe is a tombstone, add writes a second copy there although the key is stored further on, and the used count rises by one |
| Probing.ReAddIsNoOp | lib/set.c:106-109 | without tombstones, adding a stored key targets its existing slot and changes nothing |
| Probing.AddTwiceIsNoOp | lib/set.c:81-123 | with any tombstones, a second add of the same key right after the first stops at the slot the first one wrote, which already holds the key, so nothing changes (the repeated `setAdd` of lib/set.c:184-187) |
| Probing.InsertFacts | lib/set.c:81-123 | summary of add: FULL iff no slot accepts the key, and then the table is full and the key absent; otherwise the invariant holds, the key is found at the target, other keys are unaffected, a new key raises the count by one, a re-add without tombstones is a no-op, and adding the same key again right after targets the same slot |
| Probing.DeleteFacts | lib/set.c:131-140 | summary of delete: the invariant holds, the count drops by one, other keys are unaffected, and the key is no longer found iff the deleted slot held its only copy |
| StrSet.HashSet.constructor | lib/set.c:64-79 | a positive size gives a table of that many empty slots satisfying the invariant, with a used count of zero |
| StrSet.HashSet.Add | lib/set.c:81-123 | FULL with no change iff every slot holds another key; otherwise OK, with exactly the insert target overwritten by the key, the invariant kept and the key found afterwards |
| StrSet.HashSet.Has | lib/set.c:125-129 | true iff the walk finds the key, iff some slot holds it |
| StrSet.HashSet.Delete | lib/set.c:131-140 | a missing key changes nothing; otherwise exactly the found slot becomes a tombstone, the count drops by one, other keys are unaffected, and the key is no longer found iff the deleted slot held its only copy |
| StrSet.HashSet.Used | lib/set.c:142-151 | the number of occupied slots, at most the size |
| StrSet.HashSet.Destroy | lib/set.c:153-165 | every non-tombstone slot is released and nulled; the count released equals the occupied count before |
| StrMap.LookupValue | lib/map.c:114-121 | a key stored in no slot yields null |
| StrMap.GetAfterSet | lib/map.c:106-121 | after storing key and value at the insert target, get returns that value |
| StrMap.SetKeepsOtherValues | lib/map.c:72-121 | setting one key does not change the value any other key resolves to |
| StrMap.DeleteValueFacts | lib/map.c:123-137 | deleting keeps the invariant, other keys resolve as before, the key is no longer found iff the deleted slot held its only copy, and in that case it resolves to null |
| StrMap.HashMap.constructor | lib/map.c:47-70 | a positive size gives empty key slots satisfying the invariant, none of them occupied, and null values |
| StrMap.HashMap.Set | lib/map.c:72-112 | FULL with no change iff every slot holds another key; otherwise OK, with key and value written at the insert target and get returning the value |
| StrMap.HashMap.StoreAt | lib/map.c:106-111 | writes the key and the value at the target, keeps the invariant, and get then returns the value |
| StrMap.HashMap.Get | lib/map.c:114-121 | the value in the slot the walk finds, or null for a missing key |
| StrMap.HashMap.Delete | lib/map.c:123-137 | returns the value get would have returned; the found slot becomes a tombstone with a null value; other keys resolve as before; the key is no longer found iff the deleted slot held its only copy, and then resolves to null |
| StrMap.HashMap.Destroy | lib/map.c:139-152 | every non-tombstone key slot is released and nulled; the count released equals the occupied count before |
| AsWritten.SetAsWritten | lib/map.c:106-111 | the set block as written never leaves the key in a slot where it was not before |
| AsWritten.SetAsWrittenLosesKey | lib/map.c:106-121 | as written, a new key set with OK is still not found by get |
| AsWritten.SetAsWrittenFreshMap | lib/map.c:158-167 | as written, on a fresh map of size 1, set returns OK and get returns null |
| AsWritten.UpdateAsWrittenErasesKey | lib/map.c:106-111 | as written, updating a key stored at its home slot empties that slot |
| AsWritten.U8Inc | lib/set.c:90-92 | the `uint8_t` increment of the probe counter adds one below 255 and wraps 255 to 0 |
| AsWritten.ProbeU8 | lib/set.c:89-114 | the loop with an 8-bit counter stops only at an acceptable slot, and with 256 slots or more it never reports FULL |
| AsWritten.U8ProbeNeverEnds | lib/set.c:89-114 | with 256 slots or more, when the slots at offsets 0 to 255 hold other keys, the 8-bit loop is still running after any number of iterations, whatever lies at later offsets |
| AsWritten.FullTableIsFull | lib/set.c:112-114 | that same table is FULL for the intended search, while the 8-bit loop never gets there |
| AsWritten.HangWithFreeSlot | lib/set.c:89-114 | with an empty slot at offset 256 from home and other keys at offsets 0 to 255, the intended search writes there while the 8-bit loop never stops |
| AsWritten.ProbeU8AgreesBelow256 | lib/set.c:89-114 | below 256 slots the 8-bit loop gives exactly the intended search |
| AsWritten.ProbeU8AgreesBeforeWrap | lib/set.c:89-114 | with 256 slots or more, when some offset from 1 to 255 accepts the key, the 8-bit loop stops at the same slot as the intended search |

## Left out

- Allocation failure is not modelled: `setCreate` / `mapCreate` returning NULL (lib/set.c:66-74, lib/map.c:50-65) and `strdup` failing.
- Releasing memory is not modelled. `Destroy` models only the slot bookkeeping and the count of key copies released; freeing the arrays and nulling the handle are not modelled.
- A null handle cannot occur in the model, so the `panicif(!self, …)` checks are absent. A size of zero is a precondition of both constructors, standing for the panic.
- No source file defines `allocate` or `deallocate`; lib/alloc.h, which both tables include, defines only `allocSafe` and `deallocSafe`. The model gives `deallocate` the behaviour of `deallocSafe` (lib/alloc.h:52-58): free a non-null pointer, then set it to null.
- Fresh key arrays are modelled as all Empty and fresh value arrays as all null. `allocSafe` (lib/alloc.h:26-28) calls `malloc`, which does not zero memory, so the code as written gives no such guarantee. The model states the behaviour the rest of the code relies on.
- Table sizes are unbounded naturals, and the model assumes sizes below 2^61. At 2^61 or more, `sizeof(const char *) * size` wraps in 64 bits (lib/set.c:70, lib/map.c:54, lib/map.c:60) and too small an array is allocated. The probe sum `index + i` (lib/set.c:43, lib/map.c:26) could wrap only above 2^63. Below 2^61 neither happens, and the 64-bit size type matters only through `hash % size`, which the model computes on the 64-bit hash.
- Probing.InsertKeepsUnique: uniqueness is proved only for tables without tombstones, because the code can duplicate a key (Probing.TombstoneAtHomeDuplicates, Probing.TombstoneOnProbeDuplicates).
- StrMap.HashMap.Set: the contract does not state the count change, the re-add no-op without tombstones, or that an immediate second set targets the same slot. Its ensures give the new key array as the insert-target update, and Probing.InsertFacts and Probing.AddTwiceIsNoOp prove those facts about that update.
- The test framework (`test.h`), the terminal helpers (`lib/tty.h`) and the documentation generator (`scripts/docs.py`) are not part of this model.

## Findings

| source | as written | input that shows it | evidently intended | confidence | as-written member | corrected member |
|---|---|---|---|---|---|---|
| lib/map.c:106-111 | the `set:` block frees an old key and writes only the value; no copy of the key is ever stored in `keys` | a fresh map of size 1, `mapSet(map, "key", &v)` returns OK, then `mapGet(map, "key")` returns NULL | store a copy of the key beside the value, as lib/map.h:56 documents | high, not executed | AsWritten.SetAsWrittenLosesKey | StrMap.HashMap.StoreAt |
| lib/set.c:90-114 (and lib/map.c:81-103) | the probe counter `i` is a `uint8_t`, so with a size of 256 or more `i < size` is always true and `i` wraps from 255 to 0 | a set of 256 slots or more in which the slots at offsets 0 to 255 from the new key's home slot hold other keys, even with free slots further on (for example 257 slots with offset 256 empty); `setAdd` of the new key does not terminate in the C abstract machine, and the compiled behaviour is unpredictable (a loop without side effects may be assumed to terminate, section 6.8.5 paragraph 6 of ISO C11) | a counter as wide as the size; FULL after probing offsets 1 to size-1 | high, not executed | AsWritten.U8ProbeNeverEnds | Probing.ProbeAfterHome |
