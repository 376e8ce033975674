# Content store of a named-data forwarder, in Dafny

This project models the caching core of an NFD/ndn-cxx variant that keys
cached Data packets by a content hash rather than by name. There are three
pieces:

- **Table entry** (`nfd::cs::EntryImpl`, module `CsEntry`). An entry is a
  query probe holding only a hash, or a data holder holding a Data packet,
  the unsolicited flag and the packet's hash. `operator<` orders entries by
  the byte-wise order of a projected key. Module `HashOrder` defines that
  order, sorted key sequences and `lower_bound` / `upper_bound`.
- **Pooled in-memory storage** (`ndn::InMemoryStorage`, module `Ims`). This
  is a class whose fields are the following:
  - the hash-ordered index (`cache`);
  - the free-slot stack (`freeEntries`);
  - the packet counter, the capacity and the limit.

  Its object invariant is slot conservation: every preallocated slot is
  either resident or free, exactly once, and `size + free == capacity`.
  Methods keep the index sorted, grow the capacity by doubling up to the
  limit, evict at the limit and halve after erasures. `evictItem` belongs
  to derived classes and is a nondeterministic method: it erases any one
  resident entry through `eraseImpl`, or nothing.
- **Content-store facade** (`nfd::cs::Cs`, module `ContentStore`). This
  class holds the following:
  - the `std::set` table as a strictly hash-sorted sequence of data entries;
  - the admission and serving gates;
  - the replacement policy.

  The policy is an observer class that records its hook calls. After an
  insertion it picks victims, which the store erases through the
  `beforeEvict` connection made in `setPolicyImpl`.

Hashes are opaque strings compared as `std::string::compare` does. Packets
(`Data`, `Interest`) are opaque values carrying a name, the hash the codec
would compute and the link-layer cache-policy tag (module `Packet`).

## Model

| member | source | states |
|---|---|---|
| HashOrder.Compare | NFD/daemon/table/cs-entry-impl.cpp:71 | the sign of `std::string::compare`: it is in -1..1 and is 0 exactly for equal hashes |
| HashOrder.CompareAntisymmetric | NFD/daemon/table/cs-entry-impl.cpp:78-80 | swapping the operands negates the comparison, which branch 3 of operator< relies on |
| HashOrder.LessAsymmetric | NFD/daemon/table/cs-entry-impl.cpp:66-85 | the hash order is asymmetric |
| HashOrder.LessTransitive | NFD/daemon/table/cs-entry-impl.cpp:66-85 | the hash order is transitive |
| HashOrder.LessTotal | NFD/daemon/table/cs-entry-impl.cpp:66-85 | any two distinct hashes are ordered, so equal keys are the only equivalent ones |
| HashOrder.LessIsLexicographic | NFD/daemon/table/cs-entry-impl.cpp:71-82 | the comparison is byte-lexicographic: a common prefix, then a shorter string or a smaller byte |
| HashOrder.LessHasDifference | NFD/daemon/table/cs-entry-impl.cpp:71-82 | a smaller hash differs from the larger one at some position after a common prefix |
| HashOrder.DifferenceGivesLess | NFD/daemon/table/cs-entry-impl.cpp:71-82 | such a difference makes the first hash the smaller one |
| HashOrder.LowerBound | NFD/daemon/table/cs.cpp:82 | `lower_bound`: every key before the result is less than the hash, and the key at the result is not |
| HashOrder.UpperBound | NFD/daemon/table/cs.cpp:147 | `upper_bound`: no key before the result is greater than the hash, and the key at the result is |
| HashOrder.LowerBoundSplits | ndn-cxx/ndn-cxx/ims/in-memory-storage.cpp:202 | in a sorted index every key from the lower bound on is at least the hash |
| HashOrder.PresentAtLowerBound | NFD/daemon/table/cs.cpp:82-83 | a sorted index holds the hash exactly when its lower bound points at that hash |
| HashOrder.BoundsDifferIffPresent | NFD/daemon/table/cs.cpp:147-149 | the upper bound exceeds the lower bound, by one, exactly when the hash is stored |
| HashOrder.InsertKeepsSorted | NFD/daemon/table/cs.cpp:91 | inserting an absent hash at its lower bound keeps the keys strictly sorted, hence unique |
| HashOrder.RemoveKeepsSorted | ndn-cxx/ndn-cxx/ims/in-memory-storage.cpp:231 | erasing any entry keeps the keys strictly sorted |
| CsEntry.IsQuery | NFD/daemon/table/cs-entry-impl.cpp:53-57 | `isQuery()`: an entry is a query exactly when it holds no data |
| CsEntry.EntryLess | NFD/daemon/table/cs-entry-impl.cpp:66-85 | `operator<`, branch by branch: the probe hash or the data hash of each side, compared with `std::string::compare`; its meaning is stated by EntryLessIsKeyOrder |
| CsEntry.EntryLessIsKeyOrder | NFD/daemon/table/cs-entry-impl.cpp:66-85 | in all four probe/data combinations, `a < b` is the hash order of the keys |
| CsEntry.SetData | NFD/daemon/table/cs-entry-impl.cpp:49 | after setData the entry holds data, so it is not a query |
| CsEntry.MakeQuery | NFD/daemon/table/cs-entry-impl.cpp:36-40 | the hash constructor yields a query entry whose key is that hash |
| CsEntry.MakeData | NFD/daemon/table/cs-entry-impl.cpp:47-51 | the data constructor yields a non-query entry holding the data and flag, keyed by the given hash |
| CsEntry.UnsetUnsolicited | NFD/daemon/table/cs-entry-impl.cpp:59-64 | on a data entry: the same data, the flag cleared, and the key becomes "" because "" is passed as the hash |
| CsEntry.UnsetUnsolicitedIdempotent | NFD/daemon/table/cs-entry-impl.cpp:59-64 | clearing the flag twice is clearing it once |
| CsEntry.EntryLessIrreflexive | NFD/daemon/table/cs-entry-impl.cpp:66-85 | operator< is irreflexive |
| CsEntry.EntryLessAsymmetric | NFD/daemon/table/cs-entry-impl.cpp:66-85 | operator< is asymmetric |
| CsEntry.EntryLessTransitive | NFD/daemon/table/cs-entry-impl.cpp:66-85 | operator< is transitive, so it is a strict weak order usable by `std::set` |
| CsEntry.EquivalentIffSameKey | NFD/daemon/table/cs-entry-impl.cpp:69-84 | two entries are mutually not-less exactly when their keys are equal, whatever their modes |
| CsEntry.ProbeMatchesDataEntry | NFD/daemon/table/cs-entry-impl.cpp:69-84 | a probe built from a hash is equivalent to the data entry stored under that hash |
| Ims.InMemoryStorage.constructor | ndn-cxx/ndn-cxx/ims/in-memory-storage.cpp:83-88 | an empty storage without scheduler; it is valid, and the free list holds exactly the initial capacity |
| Ims.InMemoryStorage.WithScheduler | ndn-cxx/ndn-cxx/ims/in-memory-storage.cpp:90-96 | the same with a scheduler |
| Ims.InMemoryStorage.Init | ndn-cxx/ndn-cxx/ims/in-memory-storage.cpp:98-111 | the capacity becomes the initial capacity, clamped to a bounded limit; that many fresh slots are pushed; the invariant holds |
| Ims.InMemoryStorage.AllocateSlot | ndn-cxx/ndn-cxx/ims/in-memory-storage.cpp:109 | pushes one never-used slot and keeps every slot accounted for once |
| Ims.InMemoryStorage.ReleaseSlot | ndn-cxx/ndn-cxx/ims/in-memory-storage.cpp:124-125 | pops and deletes the top free slot, keeping the rest accounted for |
| Ims.InMemoryStorage.Destroy | ndn-cxx/ndn-cxx/ims/in-memory-storage.cpp:113-127 | every resident entry goes back to the free list (which then holds `capacity` slots), then every slot is released |
| Ims.InMemoryStorage.SetCapacity | ndn-cxx/ndn-cxx/ims/in-memory-storage.cpp:129-157 | capacity becomes max(c, initCapacity). Error is thrown (ok false) exactly when evictions leave more entries than that. A successful call that started above the new capacity ends with exactly `capacity` entries. Otherwise the invariant and `size + free == capacity` hold, and a grown free list keeps its old slots |
| Ims.InMemoryStorage.EvictToCapacity | ndn-cxx/ndn-cxx/ims/in-memory-storage.cpp:135-142 | evictItem runs while too many entries are resident; Error (ok false) exactly when entries beyond the capacity remain; on success it stops at exactly `capacity` entries; a cache already within the capacity is untouched; the slot total and the invariant are kept |
| Ims.InMemoryStorage.ResizeFreeList | ndn-cxx/ndn-cxx/ims/in-memory-storage.cpp:144-154 | the free list grows, keeping its old slots, or shrinks until `size + free == capacity`, with every slot accounted for once |
| Ims.InMemoryStorage.EvictItem | ndn-cxx/ndn-cxx/ims/in-memory-storage.cpp:138 | erases at most one resident entry, keeping the slot total and the invariant |
| Ims.InMemoryStorage.Insert | ndn-cxx/ndn-cxx/ims/in-memory-storage.cpp:159-194 | a stored hash changes nothing. When full below the limit, capacity becomes min(2·capacity, limit) and the packet is stored. When not full, a new hash is always stored: exactly one free slot moves into the index at the hash's place and afterInsert fires. When full at the limit, the capacity stays; either one entry was evicted and the packet is stored with the size unchanged, or nothing was evicted and the empty free list ends the call (`NoFreeEntry`). When full with a capacity of `m_initCapacity` above the limit, nothing grows or is evicted and the call ends with `NoFreeEntry`. More generally, a full storage whose capacity is above the limit (and not below `m_initCapacity`) never stores the packet. A stored packet fires afterInsert once and no other hook. The stale-timer flag is set iff there is a scheduler and the window is positive |
| Ims.InMemoryStorage.MakeRoom | ndn-cxx/ndn-cxx/ims/in-memory-storage.cpp:167-178 | a storage that is not full is untouched; a full one below the limit grows to min(2·capacity, limit) without evicting; a full one at the limit keeps its capacity and either loses one entry to evictItem, leaving a free slot, or is unchanged with an empty free list; a full one whose capacity `m_initCapacity` is above the limit is left unchanged with an empty free list; any full one whose capacity is above the limit (and not below `m_initCapacity`) is cut back by setCapacity(limit) to max(limit, `m_initCapacity`), with no free slot left when that succeeds |
| Ims.InMemoryStorage.StoreEntry | ndn-cxx/ndn-cxx/ims/in-memory-storage.cpp:180-193 | the top free slot, filled with the packet, goes into the index at the hash's lower bound; afterInsert fires; the invariant holds |
| Ims.InMemoryStorage.Find | ndn-cxx/ndn-cxx/ims/in-memory-storage.cpp:197-209 | null exactly when every resident hash is less than the key; otherwise the packet at the lower bound, with afterAccess for that entry |
| Ims.InMemoryStorage.FindByInterest | ndn-cxx/ndn-cxx/ims/in-memory-storage.cpp:211-222 | exact match: a packet exactly when the interest's hash is resident, and then the packet stored under it |
| Ims.InMemoryStorage.FreeEntry | ndn-cxx/ndn-cxx/ims/in-memory-storage.cpp:224-232 | the entry leaves the index and its slot is pushed onto the free list; the invariant holds |
| Ims.InMemoryStorage.Erase | ndn-cxx/ndn-cxx/ims/in-memory-storage.cpp:234-248 | an absent hash changes nothing. Otherwise beforeErase fires and exactly that entry is removed. Capacity halves (at least initCapacity) iff free > 2·size afterwards |
| Ims.InMemoryStorage.EraseImpl | ndn-cxx/ndn-cxx/ims/in-memory-storage.cpp:250-258 | the same removal without the hook or the shrink |
| Ims.InMemoryStorage.AfterInsert | ndn-cxx/ndn-cxx/ims/in-memory-storage.cpp:274-277 | records the hook call |
| Ims.InMemoryStorage.BeforeErase | ndn-cxx/ndn-cxx/ims/in-memory-storage.cpp:279-282 | records the hook call |
| Ims.InMemoryStorage.AfterAccess | ndn-cxx/ndn-cxx/ims/in-memory-storage.cpp:284-287 | records the hook call |
| ContentStore.EvictionChoiceExists | NFD/daemon/table/cs.cpp:105 | with a positive limit a policy can always pick distinct resident victims, not including the new entry, enough to get back to the limit |
| ContentStore.Policy.constructor | NFD/daemon/table/cs.cpp:40-44 | a new policy has seen no hook calls |
| ContentStore.Policy.SetLimit | NFD/daemon/table/cs.cpp:49 | the limit becomes the given value |
| ContentStore.Policy.AfterInsert | NFD/daemon/table/cs.cpp:105 | records the call and returns an eviction choice |
| ContentStore.Policy.AfterRefresh | NFD/daemon/table/cs.cpp:84 | records the call |
| ContentStore.Policy.BeforeUse | NFD/daemon/table/cs.cpp:156 | records the call |
| ContentStore.Policy.BeforeErase | NFD/daemon/table/cs.cpp:126 | records the call |
| ContentStore.Emplace | NFD/daemon/table/cs.cpp:89-94 | `std::set::emplace`: it inserts iff no entry has the same hash, keeps the keys sorted, adds exactly that entry and that hash, and otherwise leaves the table as it was |
| ContentStore.InsertAtKeySet | NFD/daemon/table/cs.cpp:91 | an entry inserted at the lower bound of a new hash adds exactly that entry and hash and keeps the order |
| ContentStore.RemoveAtKeySet | NFD/daemon/table/cs.cpp:127 | erasing one entry removes exactly its hash and keeps the order |
| ContentStore.FirstWithName | NFD/daemon/table/cs.cpp:115-124 | the first position in hash order whose name equals the prefix; the table size exactly when no name matches |
| ContentStore.Lookup | NFD/daemon/table/cs.cpp:147-157 | a miss exactly when the hash is stored. A hit on end() exactly when every stored hash is smaller. Otherwise the Data of the first entry with a greater hash |
| ContentStore.ResidentHashMisses | NFD/daemon/table/cs.cpp:147-154 | looking up any stored entry's hash reports a miss |
| ContentStore.AbsentHashHitsSuccessor | NFD/daemon/table/cs.cpp:147-157 | looking up an absent hash below some stored hash reports a hit |
| ContentStore.Cs.constructor | NFD/daemon/table/cs.cpp:46-50 | an empty, valid store whose fresh policy has limit nMaxPackets |
| ContentStore.Cs.Insert | NFD/daemon/table/cs.cpp:52-108 | -1 with the table untouched exactly when admission is off, the limit is 0, the tag is NO_CACHE or the hash is stored (then after afterRefresh). Otherwise 1: the new entry is in, afterInsert fired, every other entry was there before, and the size is min(old + 1, limit). It never returns 0 |
| ContentStore.Cs.EvictEntry | NFD/daemon/table/cs.cpp:183-185 | erases exactly the victim's entry and keeps the table sorted |
| ContentStore.Cs.Erase | NFD/daemon/table/cs.cpp:111-132 | removes only the first entry in hash order whose name equals the prefix, after beforeErase, and reports 1. When none matches: no change and no callback. `limit` plays no part |
| ContentStore.Cs.Find | NFD/daemon/table/cs.cpp:135-158 | a miss without looking at the table when serving is off or the limit is 0; otherwise the table query, with beforeUse exactly on a hit |
| ContentStore.Cs.SetPolicy | NFD/daemon/table/cs.cpp:168-176 | the new policy is installed with the old policy's limit |
| ContentStore.Cs.SetPolicyImpl | NFD/daemon/table/cs.cpp:178-189 | the new policy is installed |
| ContentStore.Cs.EnableAdmit | NFD/daemon/table/cs.cpp:191-199 | the admission gate takes the given value, and nothing else changes, so repeating the call changes nothing |
| ContentStore.Cs.EnableServe | NFD/daemon/table/cs.cpp:201-209 | the serving gate takes the given value, and nothing else changes |

## Quirks of the code as written

Several behaviours of the code differ from what its own comments and
assertions announce, or read past the end of a container. The model
follows the code:

- `Cs::insert` returns -1 for a hash that is already stored (cs.cpp:83-86), after afterRefresh, although its comment at cs.cpp:53 announces 0 for an old entry.
  - `ContentStore.Cs.Insert` therefore never returns 0.
  - The refresh and unsolicited-promotion branch at cs.cpp:96-103 is unreachable, since `emplace` only runs for a new hash. The model states this as the assertion `isNewEntry`.
- `Cs::find` reports a miss when the upper and lower bounds differ (cs.cpp:149), which is exactly when the hash is stored (`ContentStore.ResidentHashMisses`).
  - For an absent hash it calls the hit callback with the Data of the next greater hash.
  - When every stored hash is smaller, it dereferences end() (`LookupResult.EndDereferenced`).
- `Cs::erase` compares names for equality, not as a prefix. It erases at most one entry and ignores `limit`.
- `InMemoryStorage::find(hashCode)` is a lower-bound search, although its comment at in-memory-storage.cpp:208 speaks of an equal hash. It returns the packet of the first hash not less than the key.
- When `setCapacity` throws (in-memory-storage.cpp:139), `m_capacity` already holds the new value while `size + free` still equals the old one: the throw skips the `BOOST_ASSERT(size() + m_freeEntries.size() == m_capacity)` at in-memory-storage.cpp:156, and the storage is left with that equation broken.
- With a limit below `m_initCapacity`, the capacity may rise above the limit:
  - `setCapacity` raises it to `m_initCapacity`, including the "halving" done by `erase`.
  - `insert` on a full storage then sees `capacity != limit` and calls `setCapacity(min(2 * capacity, limit))`, which leaves the capacity at `m_initCapacity`. No eviction follows, the free list is empty, and the code reaches its assertion (`NoFreeEntry`).
- `EntryImpl::unsetUnsolicited` passes "" as the hash to `setData`, so the entry's key becomes "".

## Left out

- Logging (`printf`, `NFD_LOG_*`), `Cs::dump` and `InMemoryStorage::printCache`: they only write output.
- The `const_iterator` plumbing, `begin()` and `end()` of the storage: pointer bookkeeping over the index.
- Heap allocation of pool entries: slots are numbers, and `new` hands out the next one.
- Timers: the scheduler and `scheduleMarkStale` are a flag on the entry (`markStaleScheduled`), and `updateStaleTime` on the content-store entry is not modelled. Both depend on a clock and an event loop.
- Hash computation, `CachePolicyTag` decoding and name comparison belong to the packet codec. They are inputs or opaque values.
- The headers are not part of this model. `setData` is taken to store its three arguments, `getNameFromEntry` to be the Data's name, `m_initCapacity` to be 10, `isFull` to be `size >= capacity`, and both content-store gates to start open.
- Overflow of `2 * capacity` in `InMemoryStorage::insert`: integers are unbounded.
- `Ims.InMemoryStorage.Insert`: an empty free list where the code asserts a non-empty one ends the call with status `NoFreeEntry`, not with undefined behaviour.
- `ContentStore.Cs.Insert`: cs.cpp:83 reads the entry at the lower bound without checking for end(); the model treats end() as "no equal hash".
- `ContentStore.Cs.Find`: on `EndDereferenced` the policy's beforeUse is not recorded, as there is no entry to pass.
- `ContentStore.Policy.AfterInsert`: the LRU policy's choice of victims (least recently used first) is not modelled, since its code is not shown. Any distinct resident victims other than the new entry, as many as the table exceeds the limit by, are allowed.
- `ContentStore.Policy.SetLimit`: the policy's eviction when the limit drops is not modelled. In this code the limit is only set on an empty table or to its previous value.
- `Ims.InMemoryStorage.EvictItem`: derived classes decide what to evict, so any single resident entry or none is allowed.
- The Ethernet transport test file: it exercises a network link, not the cache.
